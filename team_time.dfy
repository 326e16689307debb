/** model/TeamTime.java: a per-team stopwatch (the plugin keeps one shared timer instead and
    never constructs this class). `now` stands for System.currentTimeMillis(). */
module TeamTimes {
  class TeamTime {
    const teamName: string
    var startTime: int
    var endTime: int
    var running: bool

    /** A new timer: not running, start and end -1, nothing elapsed. */
    constructor (teamName: string)
      ensures this.teamName == teamName
      ensures startTime == -1 && endTime == -1 && !running
      ensures forall now :: Elapsed(now) == 0
    {
      this.teamName := teamName;
      startTime := -1;
      endTime := -1;
      running := false;
    }

    /** getElapsed at time `now`: 0 before a start, the running time while running, and after a
        stop the recorded time when an end was recorded, else 0. */
    function Elapsed(now: int): int
      reads this
    {
      if startTime < 0 then 0
      else if running then now - startTime
      else if endTime > 0 then endTime - startTime
      else 0
    }

    /** start: running from `now`, with no end. */
    method Start(now: int)
      modifies this
      ensures startTime == now && endTime == -1 && running
      ensures now >= 0 ==> forall later :: Elapsed(later) == later - now
    {
      startTime := now;
      endTime := -1;
      running := true;
    }

    /** stop: when not running (or never started) -1 and no change; otherwise the end is
        recorded, the timer stops and the time since the start is returned, which from then on
        is what the timer reads. */
    method Stop(now: int) returns (elapsed: int)
      modifies this
      ensures !old(running) || old(startTime) < 0 ==> elapsed == -1 && unchanged(this)
      ensures old(running) && old(startTime) >= 0 ==>
                && startTime == old(startTime) && endTime == now && !running
                && elapsed == (if now > 0 then now - startTime else 0)
                && forall later :: Elapsed(later) == elapsed
    {
      if !running || startTime < 0 {
        return -1;
      }
      endTime := now;
      running := false;
      elapsed := Elapsed(now);
    }

    /** reset: back to the state of a new timer. */
    method Reset()
      modifies this
      ensures startTime == -1 && endTime == -1 && !running
      ensures forall now :: Elapsed(now) == 0
    {
      startTime := -1;
      endTime := -1;
      running := false;
    }
  }
}
