/** The system tick: when it is armed to fire next, and how late that can make a thread. */
module TickTimer {
  import opened Common
  import opened TimeModel

  const MIN_SYS_TICK_SPACING: int := 500_000

  function FirstOnGridAfter(time: int): (t: int)
    ensures time < t <= time + MIN_SYS_TICK_SPACING && t % MIN_SYS_TICK_SPACING == 0
  {
    time - time % MIN_SYS_TICK_SPACING + MIN_SYS_TICK_SPACING
  }

  class Timer {
    var interval: int  // in microseconds

    constructor ()
      ensures interval == 0
    {
      interval := 0;
    }

    /** `timeNow` is the clock reading taken inside. */
    method UpdateTriggerToNextTimingEvent(nextSchedulingEventTime: int, nextTimeEventTriggerTime: int, timeNow: int)
      requires 0 <= timeNow && timeNow + 2 * MIN_SYS_TICK_SPACING <= END_OF_TIME
      modifies this`interval
      ensures IsTick(timeNow, Min(nextSchedulingEventTime, nextTimeEventTriggerTime), timeNow + 1000 * interval)
      ensures var deadline := Min(nextSchedulingEventTime, nextTimeEventTriggerTime);
              var firesAt := Max(deadline, FirstOnGridAfter(timeNow + MIN_SYS_TICK_SPACING));
              1000 * interval <= firesAt - timeNow < 1000 * interval + 1000
    {
      var reactivationTime := Min(nextSchedulingEventTime, nextTimeEventTriggerTime);
      var nextOfNextBeat := ComputeNextBeat(0, MIN_SYS_TICK_SPACING, timeNow + MIN_SYS_TICK_SPACING);
      ghost var k := NextBeatIsLeast(0, MIN_SYS_TICK_SPACING, timeNow + MIN_SYS_TICK_SPACING);
      reactivationTime := Max(reactivationTime, nextOfNextBeat);
      var intervalInNanoSecs := reactivationTime - timeNow;
      interval := intervalInNanoSecs / 1000;
    }
  }

  /** `tick` is a possible firing time for a timer armed at `timeNow` with the given deadline:
      not within the minimum spacing, at most two spacings late, and less than a microsecond early. */
  ghost predicate IsTick(timeNow: int, deadline: int, tick: int) {
    && timeNow + MIN_SYS_TICK_SPACING <= tick
    && tick <= Max(deadline, timeNow + 2 * MIN_SYS_TICK_SPACING)
    && deadline - 1000 < tick
  }
}
