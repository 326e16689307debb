# TimeAttack race core in Dafny

TimeAttackPlugin runs a Minecraft speed-run race. Every team races in its own set of three worlds: an overworld, a nether and an end. A shared countdown starts the race. Teams are ranked in the order they finish, and a reset brings everything back to WAITING. This project models the plugin's orchestration logic and proves what that logic promises:

- **The race state machine.** The start check, the countdown ticks, the start itself, completion with append-only rank records, end detection and reset.
- **The roster.** Teams and the player-to-team map are kept in step. It has the member limit, fewest-members placement, automatic and bulk assignment, and the load-time rebuild.
- **The restart-resilient clock.** The race start instant is stored in the game data, so elapsed time survives a restart. The action-bar task is a separate transient flag.
- **The game-data store.** A key-value map with the plugin's defaults and clearing rules, and the saveTeam/loadTeams round trip.
- **World sets.** Their naming, the registry and its lookup by world name, and cleanup after a partial failure.
- **Pure helpers.** Time formatting, colour parsing and palette assignment, and the team-chat placeholder renderer.

Classes the source mutates in place are Dafny classes with `modifies` frames: `Team`, `TeamTime`, `ConfigManager`, `TimeManager`, `WorldSetManager`, `ScoreboardTeamManager`, `TeamManager` and `GameManager`. Their loops carry invariants. Each method is tied to specification functions: `Rosters`, `GameData`, `TimeUtil` and the `Chat` renderer. The properties are proved about those functions as lemmas. The current time is a `now` parameter. Several things the source gets from a library become parameters:

- Multiverse's answers, which become an API flag, the set of loaded worlds and per-call outcomes.
- HashMap iteration order, which becomes an explicit `order` sequence.
- The result of `Collections.shuffle`, which becomes an explicit `shuffled` sequence.

The model keeps these behaviours of the source as they are:

- **addPlayer leaves a player teamless.** It removes the player from their old team before the capacity check. Joining a full team therefore leaves the player in no team (`Rosters.FullTeamLeavesTeamless`).
- **A second start is allowed during the countdown.** The global state stays WAITING while the countdown runs. A second `startGame` passes `canStartGame`, and its new task replaces the one `countdownTask` holds. Both tasks keep ticking. When the first expires, it cancels the task the field holds, which is the second one, and starts the race. The first task itself is never cancelled, so its next tick reaches `countdownTask.cancel()` with the field already null (`TickOutcome.NullCancel`).
- **Records are in memory only.** Completion records are never stored, so ranks start again at 1 after a restart.
- **Only completeGame checks the global state.** `completeTeam` does not check it; `completeGame` does.
- **Colours are not stored.** `saveTeam` never writes the colour, so a reloaded team has none until `syncTeam` assigns one.
- **A reload can pick one of two teams.** `loadTeams` rebuilds the player map without checking that member lists are disjoint. A store that lists a player under two teams therefore loads into an inconsistent roster. `TeamManagers.TeamManager.LoadTeams` promises the invariant only for stores where no player is listed twice. `TeamManagers.TeamManager.SavedTeamsDisjoint` shows that every store a valid manager writes is of that kind.

## Model

| member | source | states |
|---|---|---|
| GameStates.ValueOf | src/main/java/me/f0reach/timeattack/model/GameState.java:6-21 | valueOf yields a state only for that state's own name; any other string gives None (Java throws) |
| GameStates.ValueOfName | src/main/java/me/f0reach/timeattack/config/ConfigManager.java:130-133 | a state written by its name() is read back as the same state |
| GameStates.ParseOrWaiting | src/main/java/me/f0reach/timeattack/config/ConfigManager.java:118-125 | a stored state that valueOf rejects reads as WAITING, any other as the named state |
| WorldSets.DefaultWorldSet | src/main/java/me/f0reach/timeattack/model/WorldSet.java:16-23 | the overworld is named after the team, the nether and end after the team plus "_nether" and "_the_end" |
| WorldSets.DefaultNamesDistinct | src/main/java/me/f0reach/timeattack/model/WorldSet.java:16-23 | the three default world names are pairwise different and each belongs to the set |
| WorldSets.GetWorldName | src/main/java/me/f0reach/timeattack/model/WorldSet.java:105-112 | a name for NORMAL, NETHER and THE_END, null for every other environment |
| WorldSets.ContainsWorld | src/main/java/me/f0reach/timeattack/model/WorldSet.java:77-81 | the name equals the overworld, nether or end name |
| WorldSets.ContainsWorldRef | src/main/java/me/f0reach/timeattack/model/WorldSet.java:86-88 | a null world is never contained; otherwise the world's name is contained |
| WorldSets.ContainsIffSomeEnvironment | src/main/java/me/f0reach/timeattack/model/WorldSet.java:77-81 | containsWorld holds exactly for the names some vanilla environment maps to |
| WorldSets.WorldNameContained | src/main/java/me/f0reach/timeattack/model/WorldSet.java:105-112 | every name getWorldName returns is contained in the set |
| Teams.Team.constructor | src/main/java/me/f0reach/timeattack/model/Team.java:19-26 | a new team: no members, no world set, WAITING, completion time -1, no colour, not completed |
| Teams.Team.MemberCount | src/main/java/me/f0reach/timeattack/model/Team.java:36-38 | the number of members |
| Teams.Team.HasMember | src/main/java/me/f0reach/timeattack/model/Team.java:59-61 | the player is in the member set |
| Teams.Team.HasWorldSet | src/main/java/me/f0reach/timeattack/model/Team.java:74-76 | a world set is assigned |
| Teams.Team.IsCompleted | src/main/java/me/f0reach/timeattack/model/Team.java:97-99 | COMPLETED with a completion time of at least 0 |
| Teams.Team.HasColor | src/main/java/me/f0reach/timeattack/model/Team.java:120-122 | a colour is assigned |
| Teams.Team.AddMember | src/main/java/me/f0reach/timeattack/model/Team.java:44-46 | true exactly when the player was not a member; the player is a member afterwards and the count grows by one exactly then |
| Teams.Team.RemoveMember | src/main/java/me/f0reach/timeattack/model/Team.java:52-54 | true exactly when the player was a member; the player is not a member afterwards |
| Teams.Team.SetWorldSet | src/main/java/me/f0reach/timeattack/model/Team.java:67-76 | the world set is replaced; hasWorldSet holds exactly for a non-null one |
| Teams.Team.SetState | src/main/java/me/f0reach/timeattack/model/Team.java:82-84 | the state is replaced |
| Teams.Team.SetCompletionTime | src/main/java/me/f0reach/timeattack/model/Team.java:90-92 | the completion time is replaced |
| Teams.Team.Reset | src/main/java/me/f0reach/timeattack/model/Team.java:104-107 | WAITING and -1, so not completed; members, world set and colour stay |
| Teams.Team.SetColor | src/main/java/me/f0reach/timeattack/model/Team.java:113-115 | the colour is replaced |
| Teams.WorldSetOf | src/main/java/me/f0reach/timeattack/config/ConfigManager.java:188-194 | a world set is rebuilt exactly when names are stored, for the team and with the given seed, and it has those names |
| GameData.SeedRoundTrip | src/main/java/me/f0reach/timeattack/config/ConfigManager.java:96-113 | after setCurrentSeed, getCurrentSeed returns the seed, hasSeed holds exactly for a non-zero seed, and no other key changes |
| GameData.NoSeedKey | src/main/java/me/f0reach/timeattack/config/ConfigManager.java:111-113 | without a stored seed, hasSeed is false and the seed reads as 0 |
| GameData.GlobalStateRoundTrip | src/main/java/me/f0reach/timeattack/config/ConfigManager.java:118-133 | setGlobalGameState followed by getGlobalGameState gives the state back |
| GameData.GlobalStateFallback | src/main/java/me/f0reach/timeattack/config/ConfigManager.java:118-125 | a missing or unparsable game-state reads as WAITING, a parsable one as the named state |
| GameData.StartTimeRoundTrip | src/main/java/me/f0reach/timeattack/config/ConfigManager.java:235-250 | setGameStartTime stores a positive time and clears the key otherwise; the reader gives the time, or 0; no other key changes |
| GameData.SaveTeamRoundTrip | src/main/java/me/f0reach/timeattack/config/ConfigManager.java:138-210 | after saveTeam, loadTeams reads back the members that parse as UUIDs, the state, the completion time and the saved world names (earlier names stay when none are saved); the team is listed and only its own keys change |
| GameData.SaveTeamPersists | src/main/java/me/f0reach/timeattack/config/ConfigManager.java:138-161 | saving member strings that list exactly a team's members leaves that team's record in the store |
| GameData.DeleteTeamEffect | src/main/java/me/f0reach/timeattack/config/ConfigManager.java:215-218 | deleting the teams.<name> subtree unlists exactly that team and changes nothing outside it |
| GameData.ClearedEffect | src/main/java/me/f0reach/timeattack/config/ConfigManager.java:223-229 | after clearAllGameData: no seed, no start time, WAITING, no team; game-state is the only key |
| GameData.DecodeDefaults | src/main/java/me/f0reach/timeattack/config/ConfigManager.java:179-204 | only listed strings that parse as UUIDs become members; a missing state reads WAITING, a missing completion time -1, a missing overworld means no world set |
| GameData.AgreeOutsideDecode | src/main/java/me/f0reach/timeattack/config/ConfigManager.java:138-161 | a store changed only under teams.<name> reads the same for every other team and for the seed, state and start time |
| GameData.AgreeOutsidePersisted | src/main/java/me/f0reach/timeattack/config/ConfigManager.java:138-161 | saving one team keeps every other team persisted |
| GameData.AgreeOutsideGlobals | src/main/java/me/f0reach/timeattack/config/ConfigManager.java:138-161 | saving or deleting a team leaves the seed, the game state and the start time alone |
| GameData.GlobalWritesKeepTeams | src/main/java/me/f0reach/timeattack/config/ConfigManager.java:103-106 | writing the seed, the game state or the start time leaves every teams.* key alone |
| GameData.GlobalWritesIndependent | src/main/java/me/f0reach/timeattack/config/ConfigManager.java:243-250 | each of the three global writers leaves the readings of the other two unchanged |
| GameData.SameTeamsPersisted | src/main/java/me/f0reach/timeattack/config/ConfigManager.java:130-133 | a team persisted before a global write is persisted after it |
| Config.ConfigManager.constructor | src/main/java/me/f0reach/timeattack/config/ConfigManager.java:43-71 | what load() leaves: the settings read from config.yml and the parsed game data |
| Config.ConfigManager.SetCurrentSeed | src/main/java/me/f0reach/timeattack/config/ConfigManager.java:103-106 | the store gets the seed; getCurrentSeed returns it and hasSeed holds exactly for a non-zero seed |
| Config.ConfigManager.SetGlobalGameState | src/main/java/me/f0reach/timeattack/config/ConfigManager.java:130-133 | the store gets the state's name; getGlobalGameState returns the state |
| Config.ConfigManager.SetGameStartTime | src/main/java/me/f0reach/timeattack/config/ConfigManager.java:243-250 | the start time is stored when positive and cleared otherwise; the reader returns it, or 0 |
| Config.ConfigManager.SaveTeam | src/main/java/me/f0reach/timeattack/config/ConfigManager.java:138-161 | the members are written as a list with exactly the team's members, then the world names, state and completion time; the team is then persisted and nothing outside teams.<name> changes |
| Config.ConfigManager.LoadTeams | src/main/java/me/f0reach/timeattack/config/ConfigManager.java:166-210 | one fresh team for each stored team name, each read back from the store with the given seed |
| Config.ConfigManager.LoadTeam | src/main/java/me/f0reach/timeattack/config/ConfigManager.java:175-206 | the team named n with no colour, the stored record and the rebuilt world set |
| Config.ConfigManager.AddMembers | src/main/java/me/f0reach/timeattack/config/ConfigManager.java:179-185 | the members are exactly the listed strings that parse as UUIDs |
| Config.ConfigManager.DeleteTeam | src/main/java/me/f0reach/timeattack/config/ConfigManager.java:215-218 | the teams.<name> subtree is removed, the team is no longer stored and nothing else changes |
| Config.ConfigManager.ClearAllGameData | src/main/java/me/f0reach/timeattack/config/ConfigManager.java:223-229 | no seed, no start time, WAITING and no teams afterwards |
| TimeUtil.NatToStringValue | src/main/java/me/f0reach/timeattack/util/TimeUtil.java:23 | the decimal text of a number reads back as the number |
| TimeUtil.NatToStringNoLeadingZero | src/main/java/me/f0reach/timeattack/util/TimeUtil.java:41 | the decimal text of a positive number has no leading zero |
| TimeUtil.Pad | src/main/java/me/f0reach/timeattack/util/TimeUtil.java:23 | "%0Nd" gives digits denoting the number, at least N of them and no more than needed |
| TimeUtil.LeadingZerosValue | src/main/java/me/f0reach/timeattack/util/TimeUtil.java:23 | zero padding does not change the value of a digit string |
| TimeUtil.Decompose | src/main/java/me/f0reach/timeattack/util/TimeUtil.java:18-21 | hours, minutes, seconds and milliseconds add back up to the input, each field below its limit |
| TimeUtil.FormatTimeNegative | src/main/java/me/f0reach/timeattack/util/TimeUtil.java:13-16 | a negative time formats as "--:--:--.---", which is not a time |
| TimeUtil.FormatTime | src/main/java/me/f0reach/timeattack/util/TimeUtil.java:13-24 | "--:--:--.---" for a negative time; otherwise hours, minutes and seconds zero-padded to two digits and milliseconds to three |
| TimeUtil.FormatTimeShort | src/main/java/me/f0reach/timeattack/util/TimeUtil.java:29-45 | "--:--" for a negative time; below one hour the padded minutes and seconds, from one hour on the unpadded hours, then padded minutes and seconds |
| TimeUtil.FormatTimeReadable | src/main/java/me/f0reach/timeattack/util/TimeUtil.java:51-71 | "計測中..." for a negative time; otherwise "<h>時間" when there are hours, "<m>分" when there are minutes or hours, then "<s>.<SSS>秒" |
| TimeUtil.FormatTimeRoundTrip | src/main/java/me/f0reach/timeattack/util/TimeUtil.java:13-24 | formatTime has the HH:mm:ss.SSS layout and reads back as the same number of milliseconds |
| TimeUtil.FormatTimeInjective | src/main/java/me/f0reach/timeattack/util/TimeUtil.java:13-24 | two different non-negative times never format alike |
| TimeUtil.FormatTimeShortRoundTrip | src/main/java/me/f0reach/timeattack/util/TimeUtil.java:29-45 | formatTimeShort reads back as the whole seconds; "mm:ss" below one hour, "h:mm:ss" with unpadded hours from one hour on |
| TimeUtil.FormatTimeShortSameSecond | src/main/java/me/f0reach/timeattack/util/TimeUtil.java:34-36 | two times within the same second format alike: the milliseconds are dropped |
| TimeUtil.FormatTimeReadableParts | src/main/java/me/f0reach/timeattack/util/TimeUtil.java:51-71 | the hour marker appears exactly when there are hours, the minute marker exactly when there are minutes or hours, and the text ends in the three millisecond digits and the seconds marker |
| TeamTimes.TeamTime.constructor | src/main/java/me/f0reach/timeattack/model/TeamTime.java:12-17 | not running, start and end -1, nothing elapsed at any time |
| TeamTimes.TeamTime.Elapsed | src/main/java/me/f0reach/timeattack/model/TeamTime.java:45-56 | 0 before a start; while running the time since the start; once stopped with a positive end, end minus start; 0 otherwise |
| TeamTimes.TeamTime.Start | src/main/java/me/f0reach/timeattack/model/TeamTime.java:22-26 | running from now with no end; from then on the elapsed time is the time since now |
| TeamTimes.TeamTime.Stop | src/main/java/me/f0reach/timeattack/model/TeamTime.java:32-56 | -1 and no change unless running; otherwise the end is recorded, the timer stops and the result is the time since the start, which is what the timer reads from then on |
| TeamTimes.TeamTime.Reset | src/main/java/me/f0reach/timeattack/model/TeamTime.java:68-72 | the state of a new timer: nothing elapsed |
| Clock.RecordedIsShown | src/main/java/me/f0reach/timeattack/manager/TimeManager.java:47-66 | at a positive instant getElapsedTimeAt and getElapsedTime agree |
| Clock.ElapsedMonotone | src/main/java/me/f0reach/timeattack/manager/TimeManager.java:47-53 | the elapsed time never decreases while the stored start stays |
| Clock.ElapsedSince | src/main/java/me/f0reach/timeattack/manager/TimeManager.java:47-53 | 0 unless the start is positive; otherwise now minus the start |
| Clock.ElapsedBetween | src/main/java/me/f0reach/timeattack/manager/TimeManager.java:60-66 | 0 unless both the start and the end are positive; otherwise end minus start |
| Clock.TimeManager.ElapsedTime | src/main/java/me/f0reach/timeattack/manager/TimeManager.java:47-53 | getElapsedTime at now: the elapsed-time rule applied to the stored start time |
| Clock.TimeManager.ElapsedTimeAt | src/main/java/me/f0reach/timeattack/manager/TimeManager.java:60-66 | getElapsedTimeAt(end): the end-time rule applied to the stored start time |
| Clock.TimeManager.IsTimerRunning | src/main/java/me/f0reach/timeattack/manager/TimeManager.java:83-85 | a positive start time is stored |
| Clock.TimeManager.constructor | src/main/java/me/f0reach/timeattack/manager/TimeManager.java:21-23 | no update task |
| Clock.TimeManager.RecordCompletion | src/main/java/me/f0reach/timeattack/manager/TimeManager.java:73-78 | the elapsed time at the completion instant: what the running timer shows then, 0 when the timer is not running |
| Clock.TimeManager.StartTimer | src/main/java/me/f0reach/timeattack/manager/TimeManager.java:28-33 | the stored start becomes now and the update task runs exactly when the action bar is enabled; for a positive now the timer runs and the elapsed time is measured from now |
| Clock.TimeManager.StopTimer | src/main/java/me/f0reach/timeattack/manager/TimeManager.java:38-41 | only the update task stops; the stored start stays |
| Clock.TimeManager.ResetTimer | src/main/java/me/f0reach/timeattack/manager/TimeManager.java:90-94 | the task stops, the stored start is cleared and nothing is elapsed any more |
| Clock.TimeManager.StartUpdateTask | src/main/java/me/f0reach/timeattack/manager/TimeManager.java:99-110 | an earlier task is cancelled and a new one runs exactly when the action bar is enabled |
| Clock.TimeManager.StopUpdateTask | src/main/java/me/f0reach/timeattack/manager/TimeManager.java:115-120 | no task afterwards |
| Clock.TimeManager.ResumeIfRunning | src/main/java/me/f0reach/timeattack/manager/TimeManager.java:149-155 | the task restarts exactly when a positive start is stored, and the elapsed time continues from that start |
| WorldRegistry.WorldSetManager.constructor | src/main/java/me/f0reach/timeattack/manager/WorldSetManager.java:25-48 | an empty registry, with the API availability that initialize() found |
| WorldRegistry.WorldSetManager.CreateWorldSet | src/main/java/me/f0reach/timeattack/manager/WorldSetManager.java:57-125 | a set is returned and registered exactly when the API is present and all three worlds are created; a failed nether or end deletes the worlds made so far, an exception leaves them |
| WorldRegistry.WorldSetManager.DeleteWorld | src/main/java/me/f0reach/timeattack/manager/WorldSetManager.java:169-198 | false without the API; a world that is not loaded counts as deleted; otherwise whether Multiverse deleted it |
| WorldRegistry.WorldSetManager.DeleteWorldSet | src/main/java/me/f0reach/timeattack/manager/WorldSetManager.java:148-164 | false for an unknown team; otherwise all three deletions are tried, the result is whether all succeeded, and only then is the entry removed |
| WorldRegistry.WorldSetManager.GetWorldSetByWorldName | src/main/java/me/f0reach/timeattack/manager/WorldSetManager.java:203-210 | a registered set containing the world, and null exactly when no registered set contains it |
| WorldRegistry.WorldSetManager.GetTeamNameByWorld | src/main/java/me/f0reach/timeattack/manager/WorldSetManager.java:215-221 | null for a null world; otherwise the team of a set containing the world, and null only when no set contains it |
| WorldRegistry.WorldSetManager.IsTimeAttackWorld | src/main/java/me/f0reach/timeattack/manager/WorldSetManager.java:233-235 | true exactly when some registered set contains the world |
| WorldRegistry.WorldSetManager.RegisterWorldSet | src/main/java/me/f0reach/timeattack/manager/WorldSetManager.java:240-242 | the set is stored under its own team name, replacing an earlier entry |
| WorldRegistry.WorldSetManager.ClearAllWorldSets | src/main/java/me/f0reach/timeattack/manager/WorldSetManager.java:247-249 | the registry is empty |
| WorldRegistry.CreatedSetIsFound | src/main/java/me/f0reach/timeattack/manager/WorldSetManager.java:116 | a set registered by createWorldSet is found again by each of its three world names |
| Scoreboards.ToUpper | src/main/java/me/f0reach/timeattack/manager/ScoreboardTeamManager.java:167 | upper-casing keeps the length |
| Scoreboards.ParseColor | src/main/java/me/f0reach/timeattack/manager/ScoreboardTeamManager.java:164-165 | a null colour name parses as WHITE |
| Scoreboards.ColorOfName | src/main/java/me/f0reach/timeattack/manager/ScoreboardTeamManager.java:167-185 | the switch accepts a string as a colour exactly when it is that colour's constant name |
| Scoreboards.ColorOf | src/main/java/me/f0reach/timeattack/manager/ScoreboardTeamManager.java:167-185 | the switch on the upper-cased name: each of the sixteen constant names gives its colour, anything else none (WHITE in parseColor) |
| Scoreboards.NamedColorOf | src/main/java/me/f0reach/timeattack/manager/ScoreboardTeamManager.java:167-183 | each of the sixteen constant names maps to its own colour |
| Scoreboards.ParseColorAnyCase | src/main/java/me/f0reach/timeattack/manager/ScoreboardTeamManager.java:167 | any string whose upper-case form is a colour name parses as that colour, whatever its case |
| Scoreboards.ParseColorName | src/main/java/me/f0reach/timeattack/manager/ScoreboardTeamManager.java:164-185 | a colour's own name parses back as that colour |
| Scoreboards.ParseColorOther | src/main/java/me/f0reach/timeattack/manager/ScoreboardTeamManager.java:184 | a string whose upper-case form names no colour parses as WHITE |
| Scoreboards.FirstUnused | src/main/java/me/f0reach/timeattack/manager/ScoreboardTeamManager.java:109-113 | the first palette entry not in use at or after i, with every earlier entry in use; none exactly when all are in use |
| Scoreboards.NextColor | src/main/java/me/f0reach/timeattack/manager/ScoreboardTeamManager.java:94-119 | WHITE for an empty palette; otherwise the first palette colour not in use, or, with every colour in use, the colour at the colour index modulo the palette size |
| Scoreboards.NextColorUnused | src/main/java/me/f0reach/timeattack/manager/ScoreboardTeamManager.java:94-113 | with a non-empty palette that still has an unused colour, the colour chosen is in the palette and not in use |
| Scoreboards.CycleCoversPalette | src/main/java/me/f0reach/timeattack/manager/ScoreboardTeamManager.java:116-118 | once every palette colour is in use, successive indices hand out every palette colour in turn |
| Scoreboards.UsedColorsAdd | src/main/java/me/f0reach/timeattack/manager/ScoreboardTeamManager.java:101-106 | a team without a colour adds nothing to the colours in use |
| Scoreboards.ScoreboardTeamManager.constructor | src/main/java/me/f0reach/timeattack/manager/ScoreboardTeamManager.java:22-30 | a colour index of 0 |
| Scoreboards.ScoreboardTeamManager.AssignNextColor | src/main/java/me/f0reach/timeattack/manager/ScoreboardTeamManager.java:94-119 | the colour assignNextColor chooses from the colours in use; the index advances by one exactly when the palette is used up |
| Scoreboards.ScoreboardTeamManager.SyncTeam | src/main/java/me/f0reach/timeattack/manager/ScoreboardTeamManager.java:50-89 | nothing changes when colours are off or the team already has a colour; otherwise the team gets the next colour and is saved, with nothing outside its own keys changing |
| Rosters.OnlyMappedTeam | src/main/java/me/f0reach/timeattack/manager/TeamManager.java:148-153 | under the roster invariant, a member of team n is mapped to n and to no other team |
| Rosters.RemovePlayerSound | src/main/java/me/f0reach/timeattack/manager/TeamManager.java:180-200 | removePlayer keeps the invariant and the capacity bound, returns true exactly when the player had a team, leaves them in no team and keeps every other player's team |
| Rosters.AddPlayerSound | src/main/java/me/f0reach/timeattack/manager/TeamManager.java:141-173 | addPlayer keeps the roster invariant and never pushes a team over the member limit |
| Rosters.AddPlayerOutcome | src/main/java/me/f0reach/timeattack/manager/TeamManager.java:141-173 | false and no change for an unknown team; true and no change when already in that team; otherwise true exactly when the target team is not full; on success the player is in that team |
| Rosters.FullTeamLeavesTeamless | src/main/java/me/f0reach/timeattack/manager/TeamManager.java:153-160 | a player moving to a full team is removed from their old team first and ends in no team, with false |
| Rosters.CreateTeamSound | src/main/java/me/f0reach/timeattack/manager/TeamManager.java:60-80 | adding an empty team keeps the invariant and the capacity bound |
| Rosters.DeleteTeamSound | src/main/java/me/f0reach/timeattack/manager/TeamManager.java:87-134 | deleting a team keeps the invariant and the capacity bound, unmaps exactly its members and keeps every other player's team |
| Rosters.Counts | src/main/java/me/f0reach/timeattack/manager/TeamManager.java:245-246 | one member count per team, in iteration order |
| Rosters.FewestSpec | src/main/java/me/f0reach/timeattack/manager/TeamManager.java:236-258 | no team exactly when every team is full; otherwise a team that is not full, with no more members than any other team that is not full, and the first such in iteration order |
| Rosters.Full | src/main/java/me/f0reach/timeattack/manager/TeamManager.java:312-313 | a team is full when the limit is positive and the count has reached it |
| Rosters.Fewest | src/main/java/me/f0reach/timeattack/manager/TeamManager.java:236-258 | the index of the first team, in iteration order, with the fewest members among those not full, or none; any index it gives is in range |
| Rosters.AssignOneSound | src/main/java/me/f0reach/timeattack/manager/TeamManager.java:370-375 | one step of randomAssignAllPlayers keeps the invariant and the capacity bound, and either changes nothing or places the player and records that placement alone |
| Rosters.AssignOneCount | src/main/java/me/f0reach/timeattack/manager/TeamManager.java:370-375 | one step places the player exactly when there are teams and free places, and then uses up one free place |
| Rosters.AssignOnePlaces | src/main/java/me/f0reach/timeattack/manager/TeamManager.java:370-375 | when getTeamWithFewestMembers finds a team, the player is placed there and one free place is used |
| Rosters.AssignOneRefuses | src/main/java/me/f0reach/timeattack/manager/TeamManager.java:236-258 | getTeamWithFewestMembers finds nothing only when there are no teams or every team is full |
| Rosters.AssignAllWithoutTeams | src/main/java/me/f0reach/timeattack/manager/TeamManager.java:362-364 | with no teams nobody is assigned and nothing changes |
| Rosters.AssignAllSound | src/main/java/me/f0reach/timeattack/manager/TeamManager.java:353-378 | randomAssignAllPlayers keeps the invariant and the capacity bound, returns only eligible players, and adds exactly the returned placements to the player map |
| Rosters.AssignAllCount | src/main/java/me/f0reach/timeattack/manager/TeamManager.java:353-378 | the number assigned is 0 with no teams, everyone with no limit and otherwise the smaller of the eligible players and the free places, which go down by that number |
| Rosters.FreeSlotsZero | src/main/java/me/f0reach/timeattack/manager/TeamManager.java:248 | with a positive limit the free places are never negative, and none are left exactly when every team is full |
| Rosters.CoveredDisjointConsistent | src/main/java/me/f0reach/timeattack/manager/TeamManager.java:37-44 | a roster whose player map is rebuilt from pairwise disjoint member sets satisfies the invariant |
| Rosters.ConsistentCovered | src/main/java/me/f0reach/timeattack/manager/TeamManager.java:37-44 | a roster satisfying the invariant maps every member to their own team |
| Rosters.TeamsDisjoint | src/main/java/me/f0reach/timeattack/manager/TeamManager.java:147-154 | under the invariant no player is in two teams |
| TeamManagers.TeamManager.constructor | src/main/java/me/f0reach/timeattack/manager/TeamManager.java:20-25 | no teams and no player mapping, which satisfies the manager invariant |
| TeamManagers.TeamManager.RemovePlayer | src/main/java/me/f0reach/timeattack/manager/TeamManager.java:180-200 | keeps the invariant (player map matches membership, every team saved) and acts on the roster exactly as Rosters.RemovePlayer; the seed, game state and start time and the list of stored teams stay |
| TeamManagers.TeamManager.AddPlayer | src/main/java/me/f0reach/timeattack/manager/TeamManager.java:141-173 | keeps the invariant and the team map, and acts on the roster exactly as Rosters.AddPlayer with the configured member limit; the seed, game state and start time and the list of stored teams stay |
| TeamManagers.TeamManager.CreateTeam | src/main/java/me/f0reach/timeattack/manager/TeamManager.java:60-80 | null and no change for an existing name; otherwise a fresh empty team, RUNNING exactly when the game runs, saved, and coloured with the next colour when team colours are on; the seed, game state and start time stay and the stored teams gain exactly the name |
| TeamManagers.TeamManager.DeleteTeam | src/main/java/me/f0reach/timeattack/manager/TeamManager.java:87-134 | succeeds exactly when the team exists and has no world set or its worlds could be and were deleted; on failure nothing changes; on success the team, its members' mappings and its stored entry are gone, the seed, game state and start time stay and the stored teams lose exactly the name |
| TeamManagers.TeamManager.GetTeamWithFewestMembers | src/main/java/me/f0reach/timeattack/manager/TeamManager.java:236-258 | the team the iteration-order minimum picks over teams that are not full, and null exactly when there is none |
| TeamManagers.TeamManager.GetPlayerTeam | src/main/java/me/f0reach/timeattack/manager/TeamManager.java:212-215 | non-null exactly when the player is mapped, and then the team named by the mapping, which has the player as a member |
| TeamManagers.TeamManager.HasTeam | src/main/java/me/f0reach/timeattack/manager/TeamManager.java:227-229 | the player is mapped to a team |
| TeamManagers.TeamManager.IsTeamFull | src/main/java/me/f0reach/timeattack/manager/TeamManager.java:306-314 | true for an unknown team; otherwise the team is full under the configured member limit |
| TeamManagers.TeamManager.AutoAssignPlayer | src/main/java/me/f0reach/timeattack/manager/TeamManager.java:265-287 | an already-placed player's team, unchanged; null and no change when assignment is limited to WAITING and the game is not waiting; otherwise one step of fewest-members placement; the seed, game state and start time and the list of stored teams stay |
| TeamManagers.TeamManager.RandomAssignAllPlayers | src/main/java/me/f0reach/timeattack/manager/TeamManager.java:353-378 | keeps the invariant, places the shuffled eligible players one by one as Rosters.AssignAll, returns only eligible players and adds exactly the returned placements to the player map; the seed, game state and start time and the list of stored teams stay |
| TeamManagers.TeamManager.SetTeamWorldSet | src/main/java/me/f0reach/timeattack/manager/TeamManager.java:319-328 | false and no stored change for an unknown team; otherwise that team's world set is replaced and saved, every other team's is kept; the seed, game state and start time and the list of stored teams stay |
| TeamManagers.TeamManager.SetTeamProgress | src/main/java/me/f0reach/timeattack/manager/GameManager.java:148-150 | a team's state and completion time are replaced and saved; membership, the global keys and the list of stored teams stay |
| TeamManagers.TeamManager.ResetAllTeams | src/main/java/me/f0reach/timeattack/manager/TeamManager.java:333-338 | every team's record is reset to WAITING and -1 and saved, members and world sets kept, the roster, the global keys and the list of stored teams unchanged |
| TeamManagers.TeamManager.ClearAll | src/main/java/me/f0reach/timeattack/manager/TeamManager.java:343-346 | no teams and no player mapping |
| TeamManagers.TeamManager.LoadTeams | src/main/java/me/f0reach/timeattack/manager/TeamManager.java:30-53 | one team per stored name read back from the store with the stored seed, every member mapped to their team, each stored world set registered, and the invariant whenever no player is stored under two teams |
| TeamManagers.TeamManager.LoadedIsValid | src/main/java/me/f0reach/timeattack/manager/TeamManager.java:30-53 | teams read back from a store with disjoint member lists, with their members mapped, satisfy the invariant |
| TeamManagers.TeamManager.SavedTeamsDisjoint | src/main/java/me/f0reach/timeattack/manager/TeamManager.java:162-164 | while the invariant holds, no player is stored under two teams, so a reload restores a valid manager |
| TeamManagers.ResetAllTeamsEffect | src/main/java/me/f0reach/timeattack/manager/TeamManager.java:333-338 | resetting leaves every team WAITING with completion time -1 and keeps its members and world names |
| TeamManagers.StoredWorldSets | src/main/java/me/f0reach/timeattack/manager/TeamManager.java:46-49 | the world sets registered on load: for each stored team with world names, the set rebuilt with the team name and seed |
| TeamManagers.LoadedRegistry | src/main/java/me/f0reach/timeattack/manager/TeamManager.java:46-49 | the world sets of the loaded teams are exactly the stored world sets |
| GameManagers.RanksAppend | src/main/java/me/f0reach/timeattack/manager/GameManager.java:235-236 | appending a record with rank size()+1 keeps ranks 1, 2, 3, ... in insertion order |
| GameManagers.FirstUnready | src/main/java/me/f0reach/timeattack/manager/GameManager.java:73-80 | the first team in iteration order with no world set or no members, with every earlier team ready; none exactly when all are ready |
| GameManagers.CountdownFiresOnTickN | src/main/java/me/f0reach/timeattack/manager/GameManager.java:114-135 | a countdown of n seconds fires on its n-th tick and only then; an earlier tick announces the remaining r seconds exactly when r is at most 5 or a multiple of 10, with a title exactly when r is at most 3, and is silent otherwise |
| GameManagers.TickOutcomeOf | src/main/java/me/f0reach/timeattack/manager/GameManager.java:115-135 | one tick with the decremented count: it fires at 0 or below (hitting the null field when the field is already cleared), announces at most 5 or a multiple of 10 with a title at most 3, and is silent otherwise |
| GameManagers.DefaultCountdown | src/main/java/me/f0reach/timeattack/manager/GameManager.java:114-135 | with the default 10 seconds: four silent ticks, announcements of 5 and 4, titled announcements of 3, 2 and 1, then the start |
| GameManagers.StartAllEffect | src/main/java/me/f0reach/timeattack/manager/GameManager.java:147-151 | after the start loop every team is RUNNING with its members, world names and completion time kept |
| GameManagers.Lines | src/main/java/me/f0reach/timeattack/manager/GameManager.java:307-315 | one leaderboard line per record |
| GameManagers.LeaderboardAppend | src/main/java/me/f0reach/timeattack/manager/GameManager.java:300-316 | one more record adds exactly its own line at the end of the leaderboard |
| GameManagers.LeaderboardInOrder | src/main/java/me/f0reach/timeattack/manager/GameManager.java:300-316 | with records present: the results header first, then record i's line at position i+1, and record i has rank i+1 |
| GameManagers.LeaderboardShape | src/main/java/me/f0reach/timeattack/manager/GameManager.java:300-316 | with records present the leaderboard is the header followed by the record lines |
| GameManagers.RankLabelInjective | src/main/java/me/f0reach/timeattack/manager/GameManager.java:252-257 | different ranks get different labels |
| GameManagers.RankLabel | src/main/java/me/f0reach/timeattack/manager/GameManager.java:252-257 | the gold bold "1位", the gray "2位" and the red "3位", and the plain "<rank>位" from rank 4 on |
| GameManagers.Leaderboard | src/main/java/me/f0reach/timeattack/manager/GameManager.java:300-316 | the single no-finishers line without records; otherwise the results header followed by one line per record |
| GameManagers.PlainLabel | src/main/java/me/f0reach/timeattack/manager/GameManager.java:256 | a rank above 3 gets none of the three medal labels |
| GameManagers.GameManager.constructor | src/main/java/me/f0reach/timeattack/manager/GameManager.java:28-32 | WAITING, no completion records, no countdown task |
| GameManagers.GameManager.LoadState | src/main/java/me/f0reach/timeattack/manager/GameManager.java:37-39 | the state becomes the stored global state |
| GameManagers.GameManager.SetGameState | src/main/java/me/f0reach/timeattack/manager/GameManager.java:51-54 | the state is set and stored; the seed, the start time, the teams and the list of stored teams are kept |
| GameManagers.GameManager.CanStartGameIff | src/main/java/me/f0reach/timeattack/manager/GameManager.java:59-83 | canStartGame returns null exactly when the game is WAITING, a seed is set, there is a team and every team has a world set and a member |
| GameManagers.GameManager.CanStartGame | src/main/java/me/f0reach/timeattack/manager/GameManager.java:59-83 | the first refusal in the source's order (already started, no seed, no teams, a team without a world set or without members), or none |
| GameManagers.GameManager.CanStartGameFirstFailure | src/main/java/me/f0reach/timeattack/manager/GameManager.java:59-83 | the refusals come in the source's order: already started, then no seed, then no teams, then the first team in iteration order without a world set or without members |
| GameManagers.GameManager.StartGame | src/main/java/me/f0reach/timeattack/manager/GameManager.java:90-104 | true exactly when canStartGame allows it; otherwise nothing changes; with a positive countdown a new task is scheduled and held by the field and nothing else changes; otherwise the race starts at once, keeping the seed and the stored teams |
| GameManagers.GameManager.StartCountdown | src/main/java/me/f0reach/timeattack/manager/GameManager.java:109-136 | a new countdown task with the given seconds is scheduled and the field holds it, replacing any earlier one |
| GameManagers.GameManager.Tick | src/main/java/me/f0reach/timeattack/manager/GameManager.java:114-135 | one tick of a scheduled task: it counts down, and when it reaches 0 it cancels the task the field holds, clears the field and starts the race, keeping the seed and the stored teams; when the field is already null the tick fails on cancel() |
| GameManagers.GameManager.ExecuteGameStart | src/main/java/me/f0reach/timeattack/manager/GameManager.java:142-171 | RUNNING and stored, records cleared, every team RUNNING and saved, the timer started now; the seed and the list of stored teams kept |
| GameManagers.GameManager.StartTeams | src/main/java/me/f0reach/timeattack/manager/GameManager.java:147-151 | every team's stored and in-memory state becomes RUNNING; the roster, the global keys and the list of stored teams stay |
| GameManagers.GameManager.CompleteGame | src/main/java/me/f0reach/timeattack/manager/GameManager.java:197-211 | false and no change unless RUNNING and the world belongs to a registered set; otherwise, for the team of some set containing the world, exactly what completeTeam does: true exactly when that team is RUNNING, no change on false, and on true the team COMPLETED with the shared timer's elapsed time, saved, recorded with the next rank, the seed, start time and stored teams kept, and the game ended exactly when every team has completed |
| GameManagers.GameManager.CompleteTeam | src/main/java/me/f0reach/timeattack/manager/GameManager.java:216-246 | true exactly when the team exists and is RUNNING, otherwise no change; then COMPLETED with the elapsed time, saved, ranked next, the seed, the start time and the stored teams kept, and the game ends when every team has completed |
| GameManagers.GameManager.MarkCompleted | src/main/java/me/f0reach/timeattack/manager/GameManager.java:227-232 | the team's record becomes COMPLETED with the time since the stored start; nothing else in the store or the roster changes: the global keys and the list of stored teams stay |
| GameManagers.GameManager.AddRecord | src/main/java/me/f0reach/timeattack/manager/GameManager.java:235-236 | the record is appended with rank size()+1 |
| GameManagers.GameManager.CheckAllTeamsCompleted | src/main/java/me/f0reach/timeattack/manager/GameManager.java:275-284 | when every team is COMPLETED the game becomes COMPLETED, stored, with the update task stopped; otherwise nothing changes; the seed, the start time and the stored teams are kept either way |
| GameManagers.GameManager.EndGame | src/main/java/me/f0reach/timeattack/manager/GameManager.java:289-295 | COMPLETED, stored, the update task stopped, the seed, the start time, the teams and the list of stored teams kept, and the leaderboard shown |
| GameManagers.GameManager.ShowLeaderboard | src/main/java/me/f0reach/timeattack/manager/GameManager.java:300-316 | the lines broadcast are the leaderboard of the completion records |
| GameManagers.GameManager.ResetGame | src/main/java/me/f0reach/timeattack/manager/GameManager.java:321-343 | a pending countdown task is cancelled and the field cleared, the timer stopped and cleared, every team reset and saved, the records cleared and the state WAITING, stored; the seed (and whether one is set) and the list of stored teams kept |
| Chat.RunEnd | src/main/java/me/f0reach/timeattack/listener/ChatListener.java:93-101 | the first index at or after k holding '%', or the length when there is none |
| Chat.IndexOfPercent | src/main/java/me/f0reach/timeattack/listener/ChatListener.java:75 | the position of the first '%' at or after from, or none |
| Chat.Advance | src/main/java/me/f0reach/timeattack/listener/ChatListener.java:72-101 | each step of the scan moves strictly forward and stays within the format |
| Chat.BuildChatMessage | src/main/java/me/f0reach/timeattack/listener/ChatListener.java:66-105 | the segments are the rendering of the format: each known placeholder replaced, unknown ones kept, text runs in gray |
| Chat.Render | src/main/java/me/f0reach/timeattack/listener/ChatListener.java:66-105 | one segment per token of the format, left to right: %team% and %player% in the team colour, %message% in white, any other %name% copied uncoloured, text runs in gray |
| Chat.CollectText | src/main/java/me/f0reach/timeattack/listener/ChatListener.java:93-101 | the text run from start up to the next '%' (the first character always taken), with the index after it |
| Chat.TeamPlaceholder | src/main/java/me/f0reach/timeattack/listener/ChatListener.java:79-80 | %team% becomes the team name in the team colour |
| Chat.PlayerPlaceholder | src/main/java/me/f0reach/timeattack/listener/ChatListener.java:81-82 | %player% becomes the player name in the team colour |
| Chat.MessagePlaceholder | src/main/java/me/f0reach/timeattack/listener/ChatListener.java:83-84 | %message% becomes the message in white |
| Chat.OtherPlaceholderCopied | src/main/java/me/f0reach/timeattack/listener/ChatListener.java:85-86 | an unknown %name% is copied with both percent signs and no colour |
| Chat.RenderPlaceholder | src/main/java/me/f0reach/timeattack/listener/ChatListener.java:72-91 | a closed %name% at the head of the format gives one segment for it, then the rendering of the rest |
| Chat.PlainTextGray | src/main/java/me/f0reach/timeattack/listener/ChatListener.java:93-101 | a run without '%' followed by '%' or the end gives one gray segment |
| Chat.UnclosedPercentKept | src/main/java/me/f0reach/timeattack/listener/ChatListener.java:72-101 | a '%' with no closing '%' after it is kept, with the rest of the format, as gray text |
| Chat.MessageNotScanned | src/main/java/me/f0reach/timeattack/listener/ChatListener.java:83-84 | a different message changes only the %message% segments, never the number or the rest of the segments |
| Chat.Substituted | src/main/java/me/f0reach/timeattack/listener/ChatListener.java:72-101 | the plain text of a rendering, defined character by character |
| Chat.RenderText | src/main/java/me/f0reach/timeattack/listener/ChatListener.java:66-105 | the plain text of the rendered segments is the character-level substitution of the format |
| Chat.AsWrittenTerminatesIff | src/main/java/me/f0reach/timeattack/listener/ChatListener.java:72-101 | the loop as written reaches the end of the format exactly when the format holds an even number of '%' |
| Chat.PercentSignStalls | src/main/java/me/f0reach/timeattack/listener/ChatListener.java:93-101 | for "50% off" the loop as written stops advancing at index 2 |
| Chat.AsWrittenAgrees | src/main/java/me/f0reach/timeattack/listener/ChatListener.java:72-101 | on a format with an even number of '%', the scan as written and the corrected scan take the same steps |

## Left out

- Bukkit scheduling: a countdown task is a record holding its counter and an active flag in `GameManager.tasks`, and a timer tick is an explicit `Tick`; `runTaskTimer` periods are not modelled.
- Wall-clock time: `System.currentTimeMillis()` is the parameter `now`.
- Messages, titles, action bars and teleports: `MessageUtil`, `announceCompletion`, the broadcast texts, `updateActionBars` (TimeManager.java:125-143), `teleportTeamToSpawn` and `WorldSetManager.teleportToWorldSetSpawn` are client I/O. The countdown's announcements and titles are modelled only as `TickOutcome` values.
- Multiverse internals: world creation and deletion become the API flag, the loaded-world set, the `CreateOutcome` of each creation and the set of names whose deletion fails; `WorldSetManager.initialize` becomes the constructor's `apiAvailable` parameter.
- `canDeleteWorldSet(WorldSet)` and `deleteWorldSet(WorldSet)`, called by TeamManager.deleteTeam, are not declared in WorldSetManager.java (it has only `deleteWorldSet(String)`); their answers are the boolean parameters of `TeamManagers.TeamManager.DeleteTeam`.
- `getWorldSet`, `getAllWorldSets`, `getTeam`, `getPlayerTeamName`, `getAllTeams`, `getTeamCount` and `getGameState` are plain reads of the fields `worldSets`, `teams`, `playerTeams` and `gameState`, so they have no members of their own.
- YAML file I/O: `saveGameData`, `load`, `reload` and file creation; the game data is the in-memory map `ConfigManager.gameData`, and the settings are read once into `Settings` (the defaults of ConfigManager.java:53-59 are `Config.DefaultSettings`).
- ConfigManager getters that ConfigManager.java does not declare (`isTeamColorsEnabled`, `getAvailableColors`, `isTeamChatEnabled`, `getTeamChatFormat`) are constructor or method parameters.
- Bukkit scoreboard objects: registering scoreboard teams, `addPlayerToScoreboardTeam`, `removePlayerFromAllScoreboardTeams`, `removeScoreboardTeam`, `getTeamColor`, `cleanup` and `initialize` are foreign library state; `SyncTeam` models only the colour rule and the save.
- `onChat`, its renderer and the asynchronous chat thread; only `buildChatMessage` is modelled, and text components are `Segment` values.
- `getTeamStatus` and `getStateDisplayName` are presentation text.
- Commands, listeners, `PluginMain`, `TimeAttackAPI` and the seed derivation of SetupCommand are glue around the core.
- Players.IsUuid: only the canonical lower-case 8-4-4-4-12 form counts as a UUID, whereas `UUID.fromString` also accepts upper case and shorter groups.
- Scoreboards.ToUpper: upper-cases ASCII letters only. Java's default-locale `toUpperCase` also maps non-ASCII letters, so 'ı' becomes 'I', and under a Turkish locale 'i' becomes 'İ'; a configured colour name can hold such letters, and the model would then parse it differently.
- GameData.GetString: a stored number or list under a string key reads as the default, where Bukkit's `getString` returns the value's `toString()`; the plugin itself writes only strings under those keys.
- GameData.DecodeWorlds: a stored overworld name without a nether or end name reads the missing name as "", where `getString` gives null. In the source the rebuilt WorldSet then holds null: `containsWorld` throws a NullPointerException for any name other than the overworld, and `getWorldName` returns null for that environment, where the model gives the empty name. World sets the plugin creates always have all three names.
- GameData.DecodeDefaults: shares the DecodeWorlds gap; a missing nether or end name is stated as "" rather than as the null the source holds.
- Config.ConfigManager.LoadTeam: shares the DecodeWorlds gap; the rebuilt world set has "" for a missing nether or end name where the source's has null.
- A stored team field is the single key `TeamKey(name, field)`, which stands for the YAML path `teams.<name>.<field>`; this matches Bukkit only because the team commands accept names matching `^[a-zA-Z0-9_-]+$` alone (TeamCreateCommand.java:54, TeamCommand.java:82), so a name never holds the path separator '.'.
- Integer widths: millisecond times, the seed and the countdown counter are unbounded integers, so `long` overflow is not modelled; `colorIndex` is a `nat`, so its `int` wrap-around after 2^31 cycles is not modelled.
- Rosters.Fewest: the `Integer.MAX_VALUE` start value of getTeamWithFewestMembers becomes "no team yet", which is the same choice for every member count below it.
- GameManagers.GameManager.CompleteGame: HashMap iteration decides which registered set is found when several contain the world, so the contract leaves the choice open: some set containing the world is the one whose team completeTeam acts on.
- TeamManagers.TeamManager.LoadTeams: states the invariant only for a store with disjoint member lists, because the source does not check it; for any other store it states that every member is mapped to some team listing them.
- Scoreboards.ScoreboardTeamManager.SyncTeam: states the colour and the save, not the Bukkit team it creates or updates.

## Findings

| source | as written | input that shows it | evidently intended | confidence | as-written member | corrected member |
|---|---|---|---|---|---|---|
| src/main/java/me/f0reach/timeattack/listener/ChatListener.java:72-101 | a '%' with no closing '%' falls through to the text loop, which stops at once on that '%', appends nothing and leaves `i` unchanged, so the loop never ends; this happens exactly for a format with an odd number of '%' | the team-chat format "50% off" | keep the unclosed '%' and the text after it as gray text and finish the scan | not executed | Chat.AsWrittenTerminatesIff | Chat.BuildChatMessage |
