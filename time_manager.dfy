/** manager/TimeManager.java: one timer shared by all teams. Its start instant lives in the
    game data (so it survives a restart); the action-bar update task is a transient flag.
    `now` stands for System.currentTimeMillis(). */
module Clock {
  import opened GameData
  import opened Config

  /** getElapsedTime's rule: time since a stored positive start, else 0. */
  function ElapsedSince(start: int, now: int): int
  {
    if start <= 0 then 0 else now - start
  }

  /** getElapsedTimeAt's rule: end minus start when both are positive, else 0. */
  function ElapsedBetween(start: int, end: int): int
  {
    if start <= 0 || end <= 0 then 0 else end - start
  }

  /** At a positive instant both rules agree: a completion recorded at `t` is what the running
      timer shows at `t`. */
  lemma RecordedIsShown(start: int, t: int)
    requires t > 0
    ensures ElapsedBetween(start, t) == ElapsedSince(start, t)
  {
  }

  /** Elapsed time never decreases while the stored start stays put. */
  lemma ElapsedMonotone(start: int, t1: int, t2: int)
    requires t1 <= t2
    ensures ElapsedSince(start, t1) <= ElapsedSince(start, t2)
  {
  }

  class TimeManager {
    const config: ConfigManager
    var updateTaskActive: bool

    constructor (config: ConfigManager)
      ensures this.config == config && !updateTaskActive
    {
      this.config := config;
      updateTaskActive := false;
    }

    /** getElapsedTime at `now`. */
    function ElapsedTime(now: int): int
      reads config`gameData
    {
      ElapsedSince(StartTime(config.gameData), now)
    }

    /** isTimerRunning: a positive start is stored. */
    predicate IsTimerRunning()
      reads config`gameData
    {
      StartTime(config.gameData) > 0
    }

    /** getElapsedTimeAt(end). */
    function ElapsedTimeAt(end: int): int
      reads config`gameData
    {
      ElapsedBetween(StartTime(config.gameData), end)
    }

    /** recordCompletion at `now`: the elapsed time at that instant, which is what the timer
        reads then; 0 when the timer is not running. */
    method RecordCompletion(now: int) returns (elapsed: int)
      ensures elapsed == ElapsedTimeAt(now)
      ensures now > 0 ==> elapsed == ElapsedTime(now)
      ensures !IsTimerRunning() ==> elapsed == 0
      ensures IsTimerRunning() && now > 0 ==> elapsed == now - StartTime(config.gameData)
    {
      elapsed := ElapsedTimeAt(now);
    }

    /** startTimer: the stored start becomes `now` and the update task is (re)started. */
    method StartTimer(now: int)
      modifies config`gameData, this`updateTaskActive
      ensures config.gameData == WithStartTime(old(config.gameData), now)
      ensures updateTaskActive == config.settings.showActionbar
      ensures now > 0 ==> IsTimerRunning() && forall later :: ElapsedTime(later) == later - now
    {
      config.SetGameStartTime(now);
      StartUpdateTask();
    }

    /** stopTimer: only the update task stops; the stored start, and so the elapsed time, stay. */
    method StopTimer()
      modifies this`updateTaskActive
      ensures !updateTaskActive
    {
      StopUpdateTask();
    }

    /** resetTimer: the task stops and the stored start is cleared. */
    method ResetTimer()
      modifies config`gameData, this`updateTaskActive
      ensures config.gameData == WithStartTime(old(config.gameData), 0)
      ensures !updateTaskActive && !IsTimerRunning()
      ensures forall now :: ElapsedTime(now) == 0
    {
      StopUpdateTask();
      config.SetGameStartTime(0);
    }

    /** startUpdateTask: any existing task is cancelled first, and a new one runs only when the
        action bar is enabled, so at most one task is ever live. */
    method StartUpdateTask()
      modifies this`updateTaskActive
      ensures updateTaskActive == config.settings.showActionbar
    {
      updateTaskActive := false;
      if !config.settings.showActionbar {
        return;
      }
      updateTaskActive := true;
    }

    /** stopUpdateTask: no task afterwards, whether or not one ran. */
    method StopUpdateTask()
      modifies this`updateTaskActive
      ensures !updateTaskActive
    {
      updateTaskActive := false;
    }

    /** resumeIfRunning: after a restart the task is started again exactly when a positive start
        is stored; the start is not touched, so the elapsed time continues from it. */
    method ResumeIfRunning()
      modifies this`updateTaskActive
      ensures old(IsTimerRunning()) ==> updateTaskActive == config.settings.showActionbar
      ensures !old(IsTimerRunning()) ==> updateTaskActive == old(updateTaskActive)
      ensures IsTimerRunning() ==> forall now :: ElapsedTime(now) == now - StartTime(config.gameData)
    {
      var startTime := StartTime(config.gameData);
      if startTime > 0 {
        StartUpdateTask();
      }
    }
  }
}
