/** manager/GameManager.java: the race itself. The global state goes WAITING, (countdown,)
    RUNNING, COMPLETED; finishing teams are ranked in the order they finish; a reset brings
    everything back to WAITING. Scheduled countdown tasks are kept as a list so that a tick can
    be given to any task still scheduled; `now` stands for System.currentTimeMillis(). */
module GameManagers {
  import opened Wrappers
  import opened GameStates
  import opened GameData
  import opened Collections
  import opened Teams
  import opened Config
  import opened Rosters
  import opened TeamManagers
  import opened Clock
  import opened WorldSets
  import opened WorldRegistry
  import opened TimeUtil

  /** CompletionRecord: one finished team, in memory only. */
  datatype CompletionRecord = CompletionRecord(teamName: string, time: int, rank: int)

  /** A countdown task of the scheduler: its `remaining[0]` counter and whether it is still
      scheduled. */
  datatype CountdownTask = CountdownTask(remaining: int, active: bool)

  /** The refusals of canStartGame, one per message, in the order it checks them. */
  datatype StartError = AlreadyStarted | NoSeed | NoTeams | NoWorldSet(team: string) | NoMembers(team: string)

  /** What one tick of a countdown task does: start the race, announce the remaining seconds
      (with a title on screen or not), do nothing, or fail on `countdownTask.cancel()` because
      the field is already null. */
  datatype TickOutcome = Fire | Announce(remaining: int, title: bool) | Silent | NullCancel

  /** Ranks are 1, 2, 3, ... in the order the records were added. */
  predicate RanksInOrder(recs: seq<CompletionRecord>)
  {
    forall i | 0 <= i < |recs| :: recs[i].rank == i + 1
  }

  /** completeTeam's rank is the number of earlier records plus one, whatever the time, so
      ranks stay 1, 2, 3, ... in call order. */
  lemma RanksAppend(recs: seq<CompletionRecord>, teamName: string, time: int)
    requires RanksInOrder(recs)
    ensures RanksInOrder(recs + [CompletionRecord(teamName, time, |recs| + 1)])
  {
  }

  // ---------- start checks ----------

  /** The per-team condition of canStartGame: a world set and at least one member. */
  predicate Ready(t: Team)
    reads t`worldSet, t`members
  {
    t.worldSet.Some? && |t.members| > 0
  }

  /** The message canStartGame gives for a team that is not ready: the world set is checked
      first. */
  function Complaint(t: Team): StartError
    reads t`worldSet
  {
    if t.worldSet.None? then NoWorldSet(t.name) else NoMembers(t.name)
  }

  /** The position, from i on, of the first team in `order` that is not ready. */
  function FirstUnready(ts: map<string, Team>, order: seq<string>, i: nat): (k: Option<nat>)
    requires i <= |order| && forall j | 0 <= j < |order| :: order[j] in ts
    reads ts.Values
    ensures k.Some? ==> i <= k.value < |order| && !Ready(ts[order[k.value]])
    ensures k.Some? ==> forall j | i <= j < k.value :: Ready(ts[order[j]])
    ensures k.None? <==> forall j | i <= j < |order| :: Ready(ts[order[j]])
    decreases |order| - i
  {
    if i == |order| then None
    else if !Ready(ts[order[i]]) then Some(i)
    else FirstUnready(ts, order, i + 1)
  }

  // ---------- the countdown ----------

  /** One tick, given the decremented counter and whether `countdownTask` is set. */
  function TickOutcomeOf(remaining: int, fieldSet: bool): TickOutcome
  {
    if remaining <= 0 then (if fieldSet then Fire else NullCancel)
    else if remaining <= 5 || remaining % 10 == 0 then Announce(remaining, remaining <= 3)
    else Silent
  }

  /** The outcomes of the first k ticks of a countdown started at n, while the field still
      names it. */
  function Countdown(n: int, k: nat): (s: seq<TickOutcome>)
    ensures |s| == k
  {
    if k == 0 then [] else Countdown(n, k - 1) + [TickOutcomeOf(n - k, true)]
  }

  /** A countdown from n (n >= 1): the i-th tick (from 0) sees n - i - 1 seconds left; it fires
      on tick n and on no earlier tick; an announcement is made only at 5 seconds or less or at
      a multiple of 10, with a title only at 3 seconds or less. */
  lemma {:induction false} CountdownFiresOnTickN(n: int, k: nat)
    requires 1 <= n && k <= n
    ensures forall i | 0 <= i < k :: Countdown(n, k)[i] == TickOutcomeOf(n - i - 1, true)
    ensures forall i | 0 <= i < k :: Countdown(n, k)[i].Fire? <==> i == n - 1
    ensures forall i | 0 <= i < k && Countdown(n, k)[i].Announce? ::
      var r := n - i - 1;
      Countdown(n, k)[i].remaining == r && (r <= 5 || r % 10 == 0) && (Countdown(n, k)[i].title <==> r <= 3)
    ensures forall i | 0 <= i < k && !Countdown(n, k)[i].Fire? && !Countdown(n, k)[i].Announce? ::
      var r := n - i - 1;
      r > 5 && r % 10 != 0
  {
    if k > 0 {
      CountdownFiresOnTickN(n, k - 1);
      assert Countdown(n, k) == Countdown(n, k - 1) + [TickOutcomeOf(n - k, true)];
    }
  }

  /** The default countdown of 10 seconds: silent from 9 to 6, announced from 5, titled from
      3, started on the tenth tick. */
  lemma DefaultCountdown()
    ensures Countdown(10, 10) == [Silent, Silent, Silent, Silent, Announce(5, false), Announce(4, false),
                                  Announce(3, true), Announce(2, true), Announce(1, true), Fire]
  {
  }

  // ---------- records of a started race ----------

  /** A team's record once executeGameStart has set it RUNNING. */
  function StartRecord(rec: TeamRecord): TeamRecord
  {
    rec.(state := Running)
  }

  /** The records with every team outside `rest` set RUNNING. */
  function PartlyStarted(recs: map<string, TeamRecord>, rest: set<string>): map<string, TeamRecord>
  {
    map n | n in recs :: if n in rest then recs[n] else StartRecord(recs[n])
  }

  lemma PartlyStartedNone(recs: map<string, TeamRecord>)
    ensures PartlyStarted(recs, recs.Keys) == recs
  {
  }

  lemma PartlyStartedStep(recs: map<string, TeamRecord>, rest: set<string>, n: string)
    requires n in rest && n in recs
    ensures PartlyStarted(recs, rest)[n] == recs[n]
    ensures PartlyStarted(recs, rest)[n := StartRecord(recs[n])] == PartlyStarted(recs, rest - {n})
  {
  }

  /** After a start every team is RUNNING and keeps its members, world names and completion
      time. */
  lemma StartAllEffect(recs: map<string, TeamRecord>)
    ensures PartlyStarted(recs, {}).Keys == recs.Keys
    ensures forall n | n in recs ::
      var r := PartlyStarted(recs, {})[n];
      r.state == Running && r.members == recs[n].members && r.worlds == recs[n].worlds
      && r.completionTime == recs[n].completionTime
  {
  }

  // ---------- the leaderboard ----------

  const NoFinishersLine := "完了したチームはありません"
  const ResultsHeader := "=== 最終結果 ==="

  /** Java's decimal text of an int. */
  function IntToString(n: int): string
  {
    if n < 0 then "-" + NatToString(-n) else NatToString(n)
  }

  /** The rank switch of announceCompletion and showLeaderboard. */
  function RankLabel(rank: int): string
  {
    if rank == 1 then "\U{00A7}6\U{00A7}l1位"
    else if rank == 2 then "\U{00A7}72位"
    else if rank == 3 then "\U{00A7}c3位"
    else IntToString(rank) + "位"
  }

  /** The leaderboard line of one record. */
  function LeaderboardLine(r: CompletionRecord): string
  {
    RankLabel(r.rank) + " " + r.teamName + " - " + FormatTime(r.time)
  }

  function Lines(recs: seq<CompletionRecord>): (ls: seq<string>)
    ensures |ls| == |recs|
  {
    seq(|recs|, i requires 0 <= i < |recs| => LeaderboardLine(recs[i]))
  }

  /** What showLeaderboard broadcasts. */
  function Leaderboard(recs: seq<CompletionRecord>): seq<string>
  {
    if recs == [] then [NoFinishersLine] else [ResultsHeader] + Lines(recs)
  }

  /** A record added later is listed after every earlier one: the leaderboard only grows at
      its end. */
  lemma LeaderboardAppend(recs: seq<CompletionRecord>, r: CompletionRecord)
    requires recs != []
    ensures Leaderboard(recs + [r]) == Leaderboard(recs) + [LeaderboardLine(r)]
  {
    assert Lines(recs + [r]) == Lines(recs) + [LeaderboardLine(r)];
  }

  /** With ranks in insertion order the leaderboard shows the k-th finisher on line k, under
      rank k's label. */
  lemma LeaderboardInOrder(recs: seq<CompletionRecord>)
    requires RanksInOrder(recs) && recs != []
    ensures |Leaderboard(recs)| == |recs| + 1 && Leaderboard(recs)[0] == ResultsHeader
    ensures forall i | 0 <= i < |recs| :: Leaderboard(recs)[i + 1] == LeaderboardLine(recs[i]) && recs[i].rank == i + 1
  {
    LeaderboardShape(recs);
    forall i | 0 <= i < |recs|
      ensures Leaderboard(recs)[i + 1] == LeaderboardLine(recs[i])
    {
      LineAt(recs, i);
    }
  }

  lemma LineAt(recs: seq<CompletionRecord>, i: nat)
    requires i < |recs|
    ensures ([ResultsHeader] + Lines(recs))[i + 1] == LeaderboardLine(recs[i])
  {
  }

  lemma LeaderboardShape(recs: seq<CompletionRecord>)
    requires recs != []
    ensures Leaderboard(recs) == [ResultsHeader] + Lines(recs)
  {
  }

  /** Distinct positive ranks get distinct labels. */
  lemma RankLabelInjective(a: int, b: int)
    requires a >= 1 && b >= 1 && RankLabel(a) == RankLabel(b)
    ensures a == b
  {
    if a > 3 && b > 3 {
      assert NatToString(a) == RankLabel(a)[..|RankLabel(a)| - 1];
      assert NatToString(b) == RankLabel(b)[..|RankLabel(b)| - 1];
      NatToStringValue(a);
      NatToStringValue(b);
    } else if a > 3 {
      PlainLabel(a);
    } else if b > 3 {
      PlainLabel(b);
    }
  }

  /** A label above 3 is digits and '位', which none of the three coloured labels is. */
  lemma PlainLabel(a: int)
    requires a > 3
    ensures RankLabel(a) != "\U{00A7}6\U{00A7}l1位" && RankLabel(a) != "\U{00A7}72位" && RankLabel(a) != "\U{00A7}c3位"
  {
    var s := NatToString(a);
    assert RankLabel(a)[0] == s[0];
    assert IsDigit(s[0]);
    if |s| == 1 {
      assert |RankLabel(a)| == 2;
    } else {
      assert RankLabel(a)[1] == s[1];
      assert IsDigit(s[1]);
    }
  }

  class GameManager {
    const config: ConfigManager
    const teamManager: TeamManager
    const timeManager: TimeManager
    const worlds: WorldSetManager
    var gameState: GameState
    var completionRecords: seq<CompletionRecord>
    /** Every countdown task scheduled so far, in order of creation. */
    var tasks: seq<CountdownTask>
    /** countdownTask: the position in `tasks` of the task the field holds, if any. */
    var countdownTask: Option<nat>

    /** The components share one configuration, the team manager keeps its invariant, ranks
        follow insertion order, and the field holds a scheduled task when it holds one. */
    ghost predicate Valid()
      reads this, teamManager, teamManager.teams.Values, config
    {
      && teamManager.config == config && timeManager.config == config
      && teamManager.Valid()
      && RanksInOrder(completionRecords)
      && (countdownTask.Some? ==> countdownTask.value < |tasks| && tasks[countdownTask.value].active)
    }

    /** Across a step that changes none of the objects involved, the invariant and the team
        records are kept. */
    twostate lemma Unaffected()
      requires teamManager.config == config
      requires unchanged(this, config, timeManager, teamManager) && unchanged(teamManager.teams.Values)
      ensures old(Valid()) ==> Valid()
      ensures teamManager.Records() == old(teamManager.Records())
      ensures teamManager.AbstractRoster() == old(teamManager.AbstractRoster())
    {
      teamManager.Untouched();
    }

    /** The construction: WAITING, no records, no countdown. */
    constructor (config: ConfigManager, teamManager: TeamManager, timeManager: TimeManager, worlds: WorldSetManager)
      requires teamManager.config == config && timeManager.config == config && teamManager.Valid()
      ensures this.config == config && this.teamManager == teamManager && this.timeManager == timeManager && this.worlds == worlds
      ensures gameState == Waiting && completionRecords == [] && tasks == [] && countdownTask == None
      ensures Valid()
    {
      this.config := config;
      this.teamManager := teamManager;
      this.timeManager := timeManager;
      this.worlds := worlds;
      gameState := Waiting;
      completionRecords := [];
      tasks := [];
      countdownTask := None;
    }

    /** loadState: the stored global state is taken over; the records are not stored, so they
        stay as they are (empty after a restart). */
    method LoadState()
      requires Valid()
      modifies this`gameState
      ensures Valid() && gameState == GlobalState(config.gameData)
    {
      gameState := GlobalState(config.gameData);
    }

    /** setGameState: the field and the stored state both become s; nothing else is stored
        differently. */
    method SetGameState(s: GameState)
      requires Valid()
      modifies this`gameState, config`gameData
      ensures Valid() && gameState == s && GlobalState(config.gameData) == s
      ensures config.gameData == WithGlobalState(old(config.gameData), s)
      ensures StartTime(config.gameData) == old(StartTime(config.gameData))
      ensures SameSeed(old(config.gameData), config.gameData) && StoredTeamNames(config.gameData) == old(StoredTeamNames(config.gameData))
      ensures teamManager.Records() == old(teamManager.Records())
      ensures teamManager.AbstractRoster() == old(teamManager.AbstractRoster())
    {
      ghost var m := config.gameData;
      gameState := s;
      config.SetGlobalGameState(s);
      GlobalWritesKeepTeams(m, 0, s, 0);
      GlobalWritesIndependent(m, 0, s, 0);
      SameTeamsNames(m, config.gameData);
      teamManager.GlobalWriteKeeps();
    }

    /** canStartGame, visiting the teams in `order`: None when the race may start, else the
        first failing check. */
    function CanStartGame(order: seq<string>): (r: Option<StartError>)
      requires Enumerates(order, teamManager.teams.Keys)
      reads this, config, teamManager, teamManager.teams.Values
    {
      if gameState != Waiting then Some(AlreadyStarted)
      else if !HasSeed(config.gameData) then Some(NoSeed)
      else if teamManager.teams == map[] then Some(NoTeams)
      else match FirstUnready(teamManager.teams, order, 0)
        case None => None
        case Some(k) => Some(Complaint(teamManager.teams[order[k]]))
    }

    /** The race may start exactly when the game is WAITING, a seed is set, some team exists
        and every team has a world set and a member. */
    lemma CanStartGameIff(order: seq<string>)
      requires Enumerates(order, teamManager.teams.Keys)
      ensures CanStartGame(order).None? <==>
        && gameState == Waiting && HasSeed(config.gameData) && teamManager.teams != map[]
        && forall n | n in teamManager.teams :: Ready(teamManager.teams[n])
    {
      var ts := teamManager.teams;
      if gameState == Waiting && HasSeed(config.gameData) && ts != map[] {
        if forall n | n in ts :: Ready(ts[n]) {
          assert FirstUnready(ts, order, 0).None?;
        } else {
          var n :| n in ts && !Ready(ts[n]);
          var i :| 0 <= i < |order| && order[i] == n;
          assert FirstUnready(ts, order, 0).Some?;
        }
      }
    }

    /** The refusal is the first failing check in the source's order: the state, then the
        seed, then the team count, then the first team in `order` lacking a world set or a
        member (the world set checked first). */
    lemma CanStartGameFirstFailure(order: seq<string>)
      requires Enumerates(order, teamManager.teams.Keys)
      ensures CanStartGame(order) == Some(AlreadyStarted) <==> gameState != Waiting
      ensures CanStartGame(order) == Some(NoSeed) <==> gameState == Waiting && !HasSeed(config.gameData)
      ensures CanStartGame(order) == Some(NoTeams) <==>
        gameState == Waiting && HasSeed(config.gameData) && teamManager.teams == map[]
      ensures CanStartGame(order).Some? && (CanStartGame(order).value.NoWorldSet? || CanStartGame(order).value.NoMembers?) ==>
        && gameState == Waiting && HasSeed(config.gameData)
        && exists k | 0 <= k < |order| ::
          && !Ready(teamManager.teams[order[k]])
          && CanStartGame(order).value == Complaint(teamManager.teams[order[k]])
          && forall j | 0 <= j < k :: Ready(teamManager.teams[order[j]])
    {
      var r := CanStartGame(order);
      if gameState == Waiting && HasSeed(config.gameData) && teamManager.teams != map[] {
        var f := FirstUnready(teamManager.teams, order, 0);
        if f.Some? {
          var k := f.value;
          assert r.value == Complaint(teamManager.teams[order[k]]);
        }
      }
    }

    /** startGame: refused (and nothing changes) exactly when canStartGame refuses. With a
        positive countdown a new task is scheduled and the field now holds it, while the game
        stays WAITING and so could be started once more; otherwise the race starts at once. */
    method StartGame(order: seq<string>, now: int) returns (ok: bool)
      requires Valid() && Enumerates(order, teamManager.teams.Keys)
      modifies this, teamManager.teams.Values`state, teamManager.teams.Values`completionTime, config`gameData,
        timeManager`updateTaskActive
      ensures Valid()
      ensures ok <==> old(CanStartGame(order)).None?
      ensures !ok ==> unchanged(this, config, timeManager) && unchanged(teamManager.teams.Values)
      ensures ok && config.settings.startCountdown > 0 ==>
        && tasks == old(tasks) + [CountdownTask(config.settings.startCountdown, true)]
        && countdownTask == Some(|old(tasks)|)
        && gameState == Waiting && completionRecords == old(completionRecords)
        && unchanged(config, timeManager) && unchanged(teamManager.teams.Values)
        && CanStartGame(order).None?
      ensures ok && config.settings.startCountdown <= 0 ==>
        && tasks == old(tasks) && countdownTask == old(countdownTask)
        && Started(old(teamManager.Records()), old(teamManager.AbstractRoster()), old(config.gameData), now)
    {
      var error := CanStartGame(order);
      if error.Some? {
        return false;
      }
      var countdown := config.settings.startCountdown;
      if countdown > 0 {
        StartCountdown(countdown);
      } else {
        ExecuteGameStart(now);
      }
      ok := true;
    }

    /** startCountdown: a task with the given counter is scheduled and the field is overwritten
        with it (an earlier task, if any, keeps running). */
    method StartCountdown(seconds: int)
      requires Valid()
      modifies this`tasks, this`countdownTask
      ensures Valid()
      ensures tasks == old(tasks) + [CountdownTask(seconds, true)] && countdownTask == Some(|old(tasks)|)
    {
      tasks := tasks + [CountdownTask(seconds, true)];
      countdownTask := Some(|tasks| - 1);
    }

    /** The state executeGameStart leaves, given the team records, the roster and the game data
        before it: the seed and the stored team names are kept. */
    ghost predicate Started(recs: map<string, TeamRecord>, roster: Roster, before: Store, now: int)
      reads this, config, teamManager, teamManager.teams.Values, timeManager
    {
      && SameSeed(before, config.gameData) && StoredTeamNames(config.gameData) == StoredTeamNames(before)
      && gameState == Running && completionRecords == []
      && teamManager.AbstractRoster() == roster
      && teamManager.Records() == PartlyStarted(recs, {})
      && GlobalState(config.gameData) == Running
      && StartTime(config.gameData) == (if now <= 0 then 0 else now)
      && timeManager.updateTaskActive == config.settings.showActionbar
    }

    /** One tick of the scheduled task i: its counter goes down by one; at 0 the task the field
        holds is cancelled, the field cleared and the race started (or, with the field already
        cleared by another task, the tick fails); otherwise an announcement is made as
        TickOutcomeOf says. */
    method Tick(i: nat, now: int) returns (outcome: TickOutcome)
      requires Valid() && i < |tasks| && tasks[i].active
      modifies this, teamManager.teams.Values`state, teamManager.teams.Values`completionTime, config`gameData,
        timeManager`updateTaskActive
      ensures Valid()
      ensures outcome == TickOutcomeOf(old(tasks[i].remaining) - 1, old(countdownTask).Some?)
      ensures !outcome.Fire? ==>
        && tasks == old(tasks)[i := old(tasks[i]).(remaining := old(tasks[i].remaining) - 1)]
        && countdownTask == old(countdownTask) && gameState == old(gameState)
        && completionRecords == old(completionRecords)
        && unchanged(config, timeManager) && unchanged(teamManager.teams.Values)
      ensures outcome.Fire? ==>
        && old(countdownTask).Some?
        && var ticked := old(tasks)[i := old(tasks[i]).(remaining := old(tasks[i].remaining) - 1)];
        && tasks == ticked[old(countdownTask).value := ticked[old(countdownTask).value].(active := false)]
        && countdownTask == None
        && Started(old(teamManager.Records()), old(teamManager.AbstractRoster()), old(config.gameData), now)
    {
      label ticking:
      var remaining := tasks[i].remaining - 1;
      tasks := tasks[i := tasks[i].(remaining := remaining)];
      if remaining <= 0 {
        if countdownTask.None? {
          return NullCancel;
        }
        var j := countdownTask.value;
        tasks := tasks[j := tasks[j].(active := false)];
        countdownTask := None;
        teamManager.Untouched@ticking();
        ExecuteGameStart(now);
        return Fire;
      } else if remaining <= 5 || remaining % 10 == 0 {
        return Announce(remaining, remaining <= 3);
      }
      return Silent;
    }

    /** executeGameStart: global RUNNING, no records, every team RUNNING and saved, the timer
        started at now. */
    method ExecuteGameStart(now: int)
      requires Valid()
      modifies this`gameState, this`completionRecords, teamManager.teams.Values`state,
        teamManager.teams.Values`completionTime, config`gameData, timeManager`updateTaskActive
      ensures Valid()
      ensures Started(old(teamManager.Records()), old(teamManager.AbstractRoster()), old(config.gameData), now)
    {
      PrepareStart();
      ghost var m := config.gameData;
      label timing:
      timeManager.StartTimer(now);
      GlobalWritesKeepTeams(m, 0, Running, now);
      GlobalWritesIndependent(m, 0, Running, now);
      StartTimeRoundTrip(m, now);
      SameTeamsNames(m, config.gameData);
      teamManager.GlobalWriteKeeps@timing();
    }

    /** executeGameStart up to the timer: RUNNING and stored, no records, every team started. */
    method PrepareStart()
      requires Valid()
      modifies this`gameState, this`completionRecords, teamManager.teams.Values`state,
        teamManager.teams.Values`completionTime, config`gameData
      ensures Valid() && gameState == Running && completionRecords == []
      ensures GlobalState(config.gameData) == Running
      ensures teamManager.Records() == PartlyStarted(old(teamManager.Records()), {})
      ensures teamManager.AbstractRoster() == old(teamManager.AbstractRoster())
      ensures SameSeed(old(config.gameData), config.gameData) && StoredTeamNames(config.gameData) == old(StoredTeamNames(config.gameData))
    {
      SetGameState(Running);
      label cleared:
      completionRecords := [];
      teamManager.Untouched@cleared();
      StartTeams();
    }

    /** The team loop of executeGameStart. */
    method StartTeams()
      requires teamManager.Valid() && teamManager.config == config
      modifies teamManager.teams.Values`state, teamManager.teams.Values`completionTime, config`gameData
      ensures teamManager.Valid() && teamManager.AbstractRoster() == old(teamManager.AbstractRoster())
      ensures teamManager.Records() == PartlyStarted(old(teamManager.Records()), {})
      ensures SameOutline(old(config.gameData), config.gameData)
    {
      ghost var recs := teamManager.Records();
      var rest := teamManager.teams.Keys;
      PartlyStartedNone(recs);
      while rest != {}
        invariant rest <= teamManager.teams.Keys
        invariant teamManager.Valid() && teamManager.AbstractRoster() == old(teamManager.AbstractRoster())
        invariant teamManager.Records() == PartlyStarted(recs, rest)
        invariant SameOutline(old(config.gameData), config.gameData)
        decreases |rest|
      {
        var n :| n in rest;
        StartOne(recs, rest, n);
        rest := rest - {n};
      }
    }

    /** One pass of executeGameStart's team loop: team n is set RUNNING and saved. */
    method StartOne(ghost recs: map<string, TeamRecord>, ghost rest: set<string>, n: string)
      requires n in rest && rest <= teamManager.teams.Keys && teamManager.config == config
      requires teamManager.Valid() && teamManager.Records() == PartlyStarted(recs, rest)
      modifies teamManager.teams.Values`state, teamManager.teams.Values`completionTime, config`gameData
      ensures teamManager.Valid() && teamManager.AbstractRoster() == old(teamManager.AbstractRoster())
      ensures teamManager.Records() == PartlyStarted(recs, rest - {n})
      ensures SameOutline(old(config.gameData), config.gameData)
    {
      var team := teamManager.teams[n];
      assert n in PartlyStarted(recs, rest);
      PartlyStartedStep(recs, rest, n);
      teamManager.SetTeamProgress(team, Running, team.completionTime);
    }

    /** Every team is COMPLETED. */
    ghost predicate AllCompleted()
      reads teamManager, teamManager.teams.Values
    {
      forall n | n in teamManager.teams :: teamManager.teams[n].state == Completed
    }

    /** completeGame: only while RUNNING, and only for a registered world; the team is the one
        whose world set holds the world. */
    method CompleteGame(worldName: string, now: int) returns (ok: bool)
      requires Valid()
      modifies this`gameState, this`completionRecords, teamManager.teams.Values`state,
        teamManager.teams.Values`completionTime, config`gameData, timeManager`updateTaskActive
      ensures Valid()
      ensures old(gameState) != Running || (forall ws | ws in worlds.worldSets.Values :: !ContainsWorld(ws, worldName)) ==>
        !ok && unchanged(this, config, timeManager) && unchanged(teamManager.teams.Values)
      ensures old(gameState) == Running && (exists ws | ws in worlds.worldSets.Values :: ContainsWorld(ws, worldName)) ==>
        exists ws | ws in worlds.worldSets.Values && ContainsWorld(ws, worldName) :: CompletedTeam(ws.teamName, ok, now)
    {
      if gameState != Running {
        return false;
      }
      var worldSet := worlds.GetWorldSetByWorldName(worldName);
      if worldSet.None? {
        return false;
      }
      assert worldSet.value in worlds.worldSets.Values && ContainsWorld(worldSet.value, worldName);
      assert unchanged(this, config, timeManager, teamManager, teamManager.teams.Values);
      ok := CompleteTeam(worldSet.value.teamName, now);
    }

    /** completeTeam: refused, changing nothing, for an unknown team or one not RUNNING (so a
        second completion of a team is refused). Otherwise the team is COMPLETED with the
        timer's elapsed time at now, saved, and recorded with the next rank; the game ends
        exactly when every team is COMPLETED. The global state is not checked. */
    method CompleteTeam(teamName: string, now: int) returns (ok: bool)
      requires Valid()
      modifies this`gameState, this`completionRecords, teamManager.teams.Values`state,
        teamManager.teams.Values`completionTime, config`gameData, timeManager`updateTaskActive
      ensures Valid()
      ensures CompletedTeam(teamName, ok, now)
    {
      if teamName !in teamManager.teams {
        return false;
      }
      var team := teamManager.teams[teamName];
      if team.state != Running {
        return false;
      }
      Finish(team, now);
      ok := true;
    }

    /** What completeTeam(teamName) at now did: it succeeded exactly when the team existed and
        was RUNNING; a refusal changed nothing, and a success left the state Finished describes. */
    twostate predicate CompletedTeam(teamName: string, ok: bool, now: int)
      reads this, config, teamManager, teamManager.teams.Values, timeManager
    {
      && (ok <==> old(teamName in teamManager.teams && teamManager.teams[teamName].state == Running))
      && (!ok ==> unchanged(this, config, timeManager, teamManager) && unchanged(old(teamManager.teams).Values))
      && (ok ==> Finished(teamName, old(teamManager.Records()), old(teamManager.AbstractRoster()), old(config.gameData),
                          old(completionRecords), ElapsedBetween(old(StartTime(config.gameData)), now),
                          old(gameState), old(GlobalState(config.gameData)), old(timeManager.updateTaskActive)))
    }

    /** The state a successful completeTeam leaves, given what was there before it: the team
        COMPLETED at `time`, nothing else of the teams changed, the record appended with the next
        rank, the seed, the start time and the stored team names kept, and the game ended exactly
        when every team is COMPLETED. */
    ghost predicate Finished(teamName: string, recs: map<string, TeamRecord>, roster: Roster, before: Store,
                             records: seq<CompletionRecord>, time: int, state: GameState, stored: GameState, ticking: bool)
      requires teamName in recs
      reads this, config, teamManager, teamManager.teams.Values, timeManager
    {
      && SameSeed(before, config.gameData) && StartTime(config.gameData) == StartTime(before)
      && StoredTeamNames(config.gameData) == StoredTeamNames(before)
      && teamManager.Records() == recs[teamName := recs[teamName].(state := Completed, completionTime := time)]
      && teamManager.AbstractRoster() == roster
      && completionRecords == records + [CompletionRecord(teamName, time, |records| + 1)]
      && (AllCompleted() ==> gameState == Completed && GlobalState(config.gameData) == Completed && !timeManager.updateTaskActive)
      && (!AllCompleted() ==> gameState == state && GlobalState(config.gameData) == stored && timeManager.updateTaskActive == ticking)
    }

    /** The body of completeTeam for a RUNNING team. */
    method Finish(team: Team, now: int)
      requires Valid() && team.name in teamManager.teams && teamManager.teams[team.name] == team
      modifies this`gameState, this`completionRecords, teamManager.teams.Values`state,
        teamManager.teams.Values`completionTime, config`gameData, timeManager`updateTaskActive
      ensures Valid()
      ensures Finished(team.name, old(teamManager.Records()), old(teamManager.AbstractRoster()), old(config.gameData),
                       old(completionRecords), ElapsedBetween(old(StartTime(config.gameData)), now),
                       old(gameState), old(GlobalState(config.gameData)), old(timeManager.updateTaskActive))
    {
      ghost var state, stored, ticking := gameState, GlobalState(config.gameData), timeManager.updateTaskActive;
      var completionTime := MarkCompleted(team, now);
      assert gameState == state && GlobalState(config.gameData) == stored && timeManager.updateTaskActive == ticking;
      ghost var marked := teamManager.Records();
      AddRecord(team.name, completionTime);
      assert gameState == state && GlobalState(config.gameData) == stored && timeManager.updateTaskActive == ticking;
      CheckAllTeamsCompleted();
      assert teamManager.Records() == marked;
    }

    /** The completion of one RUNNING team: COMPLETED with the timer's elapsed time at now, and
        saved. */
    method MarkCompleted(team: Team, now: int) returns (time: int)
      requires Valid() && team.name in teamManager.teams && teamManager.teams[team.name] == team
      modifies team`state, team`completionTime, config`gameData
      ensures Valid() && time == ElapsedBetween(old(StartTime(config.gameData)), now)
      ensures teamManager.Records() ==
        old(teamManager.Records())[team.name := old(teamManager.Records()[team.name]).(state := Completed, completionTime := time)]
      ensures teamManager.AbstractRoster() == old(teamManager.AbstractRoster())
      ensures SameOutline(old(config.gameData), config.gameData)
    {
      ghost var recs := teamManager.Records();
      assert recs[team.name] == team.Record();
      time := timeManager.RecordCompletion(now);
      teamManager.SetTeamProgress(team, Completed, time);
      assert RanksInOrder(completionRecords) && teamManager.Valid();
    }

    /** The record of a completion, ranked after every earlier one. */
    method AddRecord(teamName: string, time: int)
      requires Valid()
      modifies this`completionRecords
      ensures Valid()
      ensures completionRecords == old(completionRecords) + [CompletionRecord(teamName, time, |old(completionRecords)| + 1)]
      ensures teamManager.Records() == old(teamManager.Records())
      ensures teamManager.AbstractRoster() == old(teamManager.AbstractRoster())
    {
      var rank := |completionRecords| + 1;
      RanksAppend(completionRecords, teamName, time);
      completionRecords := completionRecords + [CompletionRecord(teamName, time, rank)];
      teamManager.Untouched();
    }

    /** checkAllTeamsCompleted: endGame exactly when every team is COMPLETED. */
    method CheckAllTeamsCompleted()
      requires Valid()
      modifies this`gameState, config`gameData, timeManager`updateTaskActive
      ensures Valid()
      ensures AllCompleted() ==> gameState == Completed && GlobalState(config.gameData) == Completed && !timeManager.updateTaskActive
      ensures !AllCompleted() ==> unchanged(this, config, timeManager)
      ensures StartTime(config.gameData) == old(StartTime(config.gameData))
      ensures SameSeed(old(config.gameData), config.gameData) && StoredTeamNames(config.gameData) == old(StoredTeamNames(config.gameData))
      ensures teamManager.Records() == old(teamManager.Records())
      ensures teamManager.AbstractRoster() == old(teamManager.AbstractRoster())
    {
      var rest := teamManager.teams.Keys;
      while rest != {}
        invariant rest <= teamManager.teams.Keys
        invariant forall n | n in teamManager.teams.Keys - rest :: teamManager.teams[n].state == Completed
        decreases |rest|
      {
        var n :| n in rest;
        if teamManager.teams[n].state != Completed {
          return;
        }
        rest := rest - {n};
      }
      var _ := EndGame();
    }

    /** endGame: global COMPLETED, the update task stops, and the leaderboard is broadcast. */
    method EndGame() returns (board: seq<string>)
      requires Valid()
      modifies this`gameState, config`gameData, timeManager`updateTaskActive
      ensures Valid() && gameState == Completed && GlobalState(config.gameData) == Completed && !timeManager.updateTaskActive
      ensures StartTime(config.gameData) == old(StartTime(config.gameData))
      ensures SameSeed(old(config.gameData), config.gameData) && StoredTeamNames(config.gameData) == old(StoredTeamNames(config.gameData))
      ensures teamManager.Records() == old(teamManager.Records())
      ensures teamManager.AbstractRoster() == old(teamManager.AbstractRoster())
      ensures board == Leaderboard(completionRecords)
    {
      ghost var start := StartTime(config.gameData);
      SetGameState(Completed);
      label stopping:
      timeManager.StopUpdateTask();
      teamManager.Untouched@stopping();
      assert gameState == Completed && GlobalState(config.gameData) == Completed && StartTime(config.gameData) == start;
      label showing:
      board := ShowLeaderboard();
      Unaffected@showing();
    }

    /** showLeaderboard: the records in the order they were added. */
    method ShowLeaderboard() returns (board: seq<string>)
      ensures board == Leaderboard(completionRecords)
    {
      if completionRecords == [] {
        return [NoFinishersLine];
      }
      board := [ResultsHeader];
      for i := 0 to |completionRecords|
        invariant board == [ResultsHeader] + Lines(completionRecords[..i])
      {
        assert completionRecords[..i + 1] == completionRecords[..i] + [completionRecords[i]];
        assert Lines(completionRecords[..i + 1]) == Lines(completionRecords[..i]) + [LeaderboardLine(completionRecords[i])];
        board := board + [LeaderboardLine(completionRecords[i])];
      }
      assert completionRecords[..|completionRecords|] == completionRecords;
    }

    /** resetGame: the countdown the field holds is cancelled, the timer stopped and cleared,
        every team reset and saved, the records emptied and the game WAITING. */
    method ResetGame()
      requires Valid()
      modifies this, teamManager.teams.Values`state, teamManager.teams.Values`completionTime, config`gameData,
        timeManager`updateTaskActive
      ensures Valid()
      ensures countdownTask == None
      ensures tasks == if old(countdownTask).None? then old(tasks)
                       else old(tasks)[old(countdownTask).value := old(tasks)[old(countdownTask).value].(active := false)]
      ensures !timeManager.updateTaskActive && !timeManager.IsTimerRunning() && StartTime(config.gameData) == 0
      ensures teamManager.AbstractRoster() == old(teamManager.AbstractRoster())
      ensures teamManager.Records() == PartlyReset(old(teamManager.Records()), {})
      ensures completionRecords == [] && gameState == Waiting && GlobalState(config.gameData) == Waiting
      ensures SameSeed(old(config.gameData), config.gameData) && StoredTeamNames(config.gameData) == old(StoredTeamNames(config.gameData))
    {
      label start:
      if countdownTask.Some? {
        var j := countdownTask.value;
        tasks := tasks[j := tasks[j].(active := false)];
        countdownTask := None;
      }
      timeManager.StopTimer();
      teamManager.Untouched@start();
      ghost var m := config.gameData;
      label clearing:
      timeManager.ResetTimer();
      GlobalWritesKeepTeams(m, 0, Waiting, 0);
      GlobalWritesIndependent(m, 0, Waiting, 0);
      SameTeamsNames(m, config.gameData);
      teamManager.GlobalWriteKeeps@clearing();
      teamManager.ResetAllTeams();
      label reset:
      completionRecords := [];
      teamManager.Untouched@reset();
      SetGameState(Waiting);
    }
  }
}
