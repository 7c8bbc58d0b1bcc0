/** How late a sleeping thread can be considered, over every sequence of timer interrupts, yields
    and resumes between its falling asleep and its wake-up time. */
module Lateness {
  import opened Common
  import opened TimeModel
  import opened TickTimer
  import opened Scheduling

  datatype Event = Interrupt | Yield | Resume  // of any thread, by a thread or an interrupt

  /** The scheduler after an event: the time of the event, the time to try again, the time the
      tick is armed for, and the running thread. */
  datatype Moment = Moment(now: int, timeToTry: int, armed: int, current: nat)

  /** What one event may do, as `TakeInterrupt`, `TakeYield` and `TakeResume` below show:
      `threads` are the threads as the event finds them. */
  ghost predicate Next(m: Moment, e: Event, threads: seq<ThreadState>, idle: nat, nextTimeEvent: int, n: Moment) {
    && idle < |threads| && m.now <= n.now <= m.armed
    && match e
       case Interrupt =>
         && n.now == m.armed
         && IsTick(n.now, Min(n.timeToTry, nextTimeEvent), n.armed)
         && if n.now < m.timeToTry then n.timeToTry == m.timeToTry && n.current == m.current
            else Selected(threads, idle, n)
       case Yield =>
         && IsSelection(threads, idle, n.now, n.current)
         && if n.current == m.current then n.timeToTry == 0 && n.armed == m.armed
            else Selected(threads, idle, n) && IsTick(n.now, Min(n.timeToTry, nextTimeEvent), n.armed)
       case Resume => n.timeToTry == 0 && n.armed == m.armed && n.current == m.current
  }

  ghost predicate Selected(threads: seq<ThreadState>, idle: nat, n: Moment)
    requires idle < |threads|
  {
    && IsSelection(threads, idle, n.now, n.current)
    && exists earliest :: IsEarliest(threads, idle, n.now, earliest)
                       && n.timeToTry == Min(earliest, TIME_SLICE_FOR_SAME_PRIORITY + n.now)
  }

  /** What the scheduler object holds of a moment. */
  ghost predicate Matches(s: Scheduler, m: Moment)
    reads s
  {
    s.timeToTryAgainToSchedule == m.timeToTry && s.currentThread == m.current
  }

  /** The tick comes: what the scheduler does is an interrupt as above. */
  method TakeInterrupt(s: Scheduler, ghost m: Moment, timeNow: int, nextTimeEvent: int) returns (ghost n: Moment)
    requires s.Valid() && s.preSelectedNextToRun.None? && Matches(s, m) && timeNow == m.armed >= m.now
    requires 0 <= timeNow && timeNow + 2 * MIN_SYS_TICK_SPACING <= END_OF_TIME
    modifies s, s.timer, s.threads
    ensures s.Valid() && Matches(s, n) && n.armed == n.now + 1000 * s.timer.interval
    ensures Next(m, Interrupt, old(States(s.threads)), s.idle, nextTimeEvent, n)
  {
    ghost var earliest := s.SchedulerWrapper(timeNow, nextTimeEvent);
    n := Moment(timeNow, s.timeToTryAgainToSchedule, timeNow + 1000 * s.timer.interval, s.currentThread);
  }

  /** The running thread yields before the tick comes. */
  method TakeYield(s: Scheduler, ghost m: Moment, timeNow: int, nextTimeEvent: int) returns (ghost n: Moment)
    requires s.Valid() && s.preSelectedNextToRun.None? && Matches(s, m) && m.now <= timeNow <= m.armed
    requires 0 <= timeNow && timeNow + 2 * MIN_SYS_TICK_SPACING <= END_OF_TIME
    modifies s, s.timer, s.threads
    ensures s.Valid() && Matches(s, n)
    ensures n.armed == if n.current == m.current then m.armed else n.now + 1000 * s.timer.interval
    ensures Next(m, Yield, old(States(s.threads)), s.idle, nextTimeEvent, n)
  {
    ghost var earliest := s.Yield(timeNow, nextTimeEvent);
    n := Moment(timeNow, s.timeToTryAgainToSchedule,
                if s.currentThread == m.current then m.armed else timeNow + 1000 * s.timer.interval, s.currentThread);
  }

  /** Somebody is resumed: the scheduler is to look again at the next tick. */
  method TakeResume(s: Scheduler, who: nat, ghost m: Moment, ghost now: int) returns (ghost n: Moment)
    requires s.Valid() && who < |s.threads| && Matches(s, m) && m.now <= now <= m.armed
    modifies s, s.threads
    ensures s.Valid() && Matches(s, n) && s.timer.interval == old(s.timer.interval)
    ensures s.threads[who].State().Ready(now) <==> 0 < now
    ensures Next(m, Resume, old(States(s.threads)), s.idle, END_OF_TIME, n)
  {
    s.Resume(who);
    assert States(s.threads)[who] == s.threads[who].State();
    n := Moment(now, 0, m.armed, m.current);
  }

  /** `t` is suspended until `wake`, and neither a ready thread nor the idle thread has a higher
      priority. */
  ghost predicate NotOutranked(threads: seq<ThreadState>, idle: nat, t: nat, wake: int, now: int) {
    && idle < |threads| && t < |threads| && threads[t].suspendedUntil == wake
    && (forall j :: 0 <= j < |threads| && (threads[j].Ready(now) || j == idle) ==> threads[j].priority <= threads[t].priority)
  }

  /** The scheduler will look again in time. */
  ghost predicate Covered(m: Moment, wake: int) {
    m.timeToTry <= wake && m.armed <= wake + 2 * MIN_SYS_TICK_SPACING
  }

  /** Falling asleep leaves the sleeper covered: its own yield switches to another thread. */
  lemma FallingAsleep(m: Moment, threads: seq<ThreadState>, idle: nat, nextTimeEvent: int, n: Moment, t: nat, wake: int)
    requires 0 <= n.now <= wake
    requires Next(m, Yield, threads, idle, nextTimeEvent, n) && n.current != m.current
    requires NotOutranked(threads, idle, t, wake, n.now)
    ensures Covered(n, wake)
  {
    var earliest :| IsEarliest(threads, idle, n.now, earliest)
                 && n.timeToTry == Min(earliest, TIME_SLICE_FOR_SAME_PRIORITY + n.now);
    assert !threads[t].Ready(n.now) && (n.now <= wake ==> Counts(threads, idle, n.now, t));
  }

  lemma StaysCovered(m: Moment, e: Event, threads: seq<ThreadState>, idle: nat, nextTimeEvent: int, n: Moment,
                     t: nat, wake: int)
    requires 0 <= n.now <= wake && !e.Resume?
    requires Next(m, e, threads, idle, nextTimeEvent, n) && Covered(m, wake)
    requires NotOutranked(threads, idle, t, wake, n.now)
    ensures Covered(n, wake)
  {
    assert !threads[t].Ready(n.now) && (n.now <= wake ==> Counts(threads, idle, n.now, t));
    if n.timeToTry != 0 && n.timeToTry != m.timeToTry {
      var earliest :| IsEarliest(threads, idle, n.now, earliest)
                   && n.timeToTry == Min(earliest, TIME_SLICE_FOR_SAME_PRIORITY + n.now);
      assert earliest <= threads[t].suspendedUntil;
    }
  }

  /** A run: `moments[i]` to `moments[i + 1]` by `events[i]`. */
  datatype Run = Run(moments: seq<Moment>, events: seq<Event>, threads: seq<seq<ThreadState>>, timeEvents: seq<int>) {
    ghost predicate Follows(idle: nat) {
      && |moments| == |events| + 1 && |threads| == |events| && |timeEvents| == |events|
      && forall i :: 0 <= i < |events| ==> Next(moments[i], events[i], threads[i], idle, timeEvents[i], moments[i + 1])
    }
  }

  /** Up to event `n` the scheduler has selected only before the wake-up time, and found nothing
      that outranks `t`; resumes may come at any time. */
  ghost predicate SleepsOn(r: Run, idle: nat, t: nat, wake: int, n: nat)
    requires r.Follows(idle) && n <= |r.events|
  {
    && r.moments[0].now <= wake
    && forall i :: 0 <= i < n && !r.events[i].Resume? ==>
         r.moments[i + 1].now <= wake && NotOutranked(r.threads[i], idle, t, wake, r.moments[i + 1].now)
  }

  lemma {:induction false} CoveredAt(r: Run, idle: nat, t: nat, wake: int, n: nat)
    requires r.Follows(idle) && n <= |r.events| && SleepsOn(r, idle, t, wake, n)
    requires 0 <= r.moments[0].now && 0 <= wake && Covered(r.moments[0], wake)
    ensures 0 <= r.moments[n].now && Covered(r.moments[n], wake)
  {
    if n > 0 {
      var i := n - 1;
      CoveredAt(r, idle, t, wake, i);
      assert Next(r.moments[i], r.events[i], r.threads[i], idle, r.timeEvents[i], r.moments[n]);
      if !r.events[i].Resume? {
        StaysCovered(r.moments[i], r.events[i], r.threads[i], idle, r.timeEvents[i], r.moments[n], t, wake);
      }
    }
  }

  /** Bounded lateness: the first tick or yield after the wake-up time of a thread that is not
      outranked comes at most two tick spacings after it, and selects with the thread ready: what
      runs then is a thread that `t` does not run before. */
  lemma BoundedLateness(r: Run, idle: nat, t: nat, wake: int)
    requires r.Follows(idle) && 0 < |r.events| && SleepsOn(r, idle, t, wake, |r.events| - 1)
    requires 0 <= r.moments[0].now && 0 <= wake && Covered(r.moments[0], wake)
    requires var n := |r.events|;
             && wake < r.moments[n].now && !r.events[n - 1].Resume?
             && NotOutranked(r.threads[n - 1], idle, t, wake, r.moments[n].now)
    ensures var last, threads := r.moments[|r.events|], r.threads[|r.events| - 1];
            && last.now <= wake + 2 * MIN_SYS_TICK_SPACING
            && t < |threads| && threads[t].Ready(last.now)
            && IsSelection(threads, idle, last.now, last.current)
            && !threads[t].Before(threads[last.current])
  {
    var n := |r.events|;
    CoveredAt(r, idle, t, wake, n - 1);
    assert Next(r.moments[n - 1], r.events[n - 1], r.threads[n - 1], idle, r.timeEvents[n - 1], r.moments[n]);
  }

  /** The run without its first event. */
  function Rest(r: Run): Run
    requires 0 < |r.events| && |r.moments| == |r.events| + 1 && |r.threads| == |r.events| == |r.timeEvents|
  {
    Run(r.moments[1..], r.events[1..], r.threads[1..], r.timeEvents[1..])
  }

  lemma RestFollows(r: Run, idle: nat)
    requires r.Follows(idle) && 0 < |r.events|
    ensures Rest(r).Follows(idle)
  {
    var q := Rest(r);
    forall i | 0 <= i < |q.events|
      ensures Next(q.moments[i], q.events[i], q.threads[i], idle, q.timeEvents[i], q.moments[i + 1])
    {
      assert Next(r.moments[i + 1], r.events[i + 1], r.threads[i + 1], idle, r.timeEvents[i + 1], r.moments[i + 2]);
    }
  }

  /** The whole: a thread that falls asleep until `wake` and is never outranked is considered, from
      its own yield on, at most two tick spacings late. */
  lemma LateFromSuspensionOn(r: Run, idle: nat, t: nat, wake: int)
    requires r.Follows(idle) && 1 < |r.events|
    requires r.events[0].Yield? && r.moments[0].current == t != idle
    requires 0 <= r.moments[1].now <= wake && NotOutranked(r.threads[0], idle, t, wake, r.moments[1].now)
    requires SleepsOn(r, idle, t, wake, |r.events| - 1)
    requires var n := |r.events|;
             && wake < r.moments[n].now && !r.events[n - 1].Resume?
             && NotOutranked(r.threads[n - 1], idle, t, wake, r.moments[n].now)
    ensures var last, threads := r.moments[|r.events|], r.threads[|r.events| - 1];
            && last.now <= wake + 2 * MIN_SYS_TICK_SPACING
            && t < |threads| && threads[t].Ready(last.now)
            && IsSelection(threads, idle, last.now, last.current)
            && !threads[t].Before(threads[last.current])
  {
    assert Next(r.moments[0], Yield, r.threads[0], idle, r.timeEvents[0], r.moments[1]);
    FallingAsleep(r.moments[0], r.threads[0], idle, r.timeEvents[0], r.moments[1], t, wake);
    RestFollows(r, idle);
    var q := Rest(r);
    forall i | 0 <= i < |q.events| - 1 && !q.events[i].Resume?
      ensures q.moments[i + 1].now <= wake && NotOutranked(q.threads[i], idle, t, wake, q.moments[i + 1].now)
    {
      assert r.moments[i + 2].now <= wake;
    }
    BoundedLateness(q, idle, t, wake);
  }

  /** Whenever a thread is selected, the scheduler looks again within 100 ms, and the next tick comes by
      then at the latest. */
  lemma SliceEnds(r: Run, idle: nat, i: nat)
    requires r.Follows(idle) && i < |r.events|
    requires r.events[i].Interrupt? || (r.events[i].Yield? && r.moments[i + 1].current != r.moments[i].current)
    requires r.events[i].Interrupt? ==> r.moments[i].timeToTry <= r.moments[i + 1].now
    ensures r.moments[i + 1].timeToTry <= r.moments[i + 1].now + 100_000_000
    ensures r.moments[i + 1].armed <= r.moments[i + 1].now + 100_000_000
  {
    assert Next(r.moments[i], r.events[i], r.threads[i], idle, r.timeEvents[i], r.moments[i + 1]);
  }

  lemma {:induction false} ArmedBehind(r: Run, idle: nat, i: nat, k: nat)
    requires r.Follows(idle) && i < k <= |r.events| && r.events[i].Interrupt?
    ensures r.moments[i + 1].now <= r.moments[k].now
    ensures r.moments[i + 1].now + MIN_SYS_TICK_SPACING <= r.moments[k].armed
  {
    assert Next(r.moments[k - 1], r.events[k - 1], r.threads[k - 1], idle, r.timeEvents[k - 1], r.moments[k]);
    if i + 1 < k {
      ArmedBehind(r, idle, i, k - 1);
    }
  }

  /** The system is not flooded with ticks: over every run, whatever yields and resumes come in
      between, two ticks are at least one spacing apart. */
  lemma InterruptsAreSpaced(r: Run, idle: nat, i: nat, j: nat)
    requires r.Follows(idle) && i < j < |r.events| && r.events[i].Interrupt? && r.events[j].Interrupt?
    ensures r.moments[i + 1].now + MIN_SYS_TICK_SPACING <= r.moments[j + 1].now
  {
    ArmedBehind(r, idle, i, j);
    assert Next(r.moments[j], r.events[j], r.threads[j], idle, r.timeEvents[j], r.moments[j + 1]);
  }
}
