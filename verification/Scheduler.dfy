/** Thread selection, one scheduling step, and what they guarantee over many steps. */
module Scheduling {
  import opened Common
  import opened TimeModel
  import opened TickTimer

  const TIME_SLICE_FOR_SAME_PRIORITY: int := 100_000_000

  // ---------------------------------------------------------------- selection on values

  /** The fields of a thread the scheduler looks at. */
  datatype ThreadState = ThreadState(priority: int, lastActivation: nat, suspendedUntil: int, waitingFor: int) {
    predicate Ready(timeNow: int) {
      suspendedUntil < timeNow
    }

    /** Runs before `other`: higher priority, or the same and activated longer ago. */
    predicate Before(other: ThreadState) {
      priority > other.priority || (priority == other.priority && lastActivation < other.lastActivation)
    }
  }

  /** `k` is what a selection over `threads` must yield: the idle thread unless a ready thread
      runs before it, otherwise the first thread in the list that no ready thread runs before. */
  ghost predicate IsSelection(threads: seq<ThreadState>, idle: nat, timeNow: int, k: nat)
    requires idle < |threads|
  {
    && k < |threads|
    && (k != idle ==> threads[k].Ready(timeNow) && threads[k].Before(threads[idle]))
    && (forall j :: 0 <= j < |threads| && threads[j].Ready(timeNow) ==> !threads[j].Before(threads[k]))
    && (k != idle ==> forall j :: 0 <= j < k && threads[j].Ready(timeNow) ==> threads[k].Before(threads[j]))
  }

  lemma SelectionIsUnique(threads: seq<ThreadState>, idle: nat, timeNow: int, k: nat, l: nat)
    requires idle < |threads|
    requires IsSelection(threads, idle, timeNow, k) && IsSelection(threads, idle, timeNow, l)
    ensures k == l
  {
  }

  /** A sleeper a selection has to look out for: it is not below the idle thread, nor below a ready thread
      that stands before it in the list. */
  ghost predicate Counts(threads: seq<ThreadState>, idle: nat, timeNow: int, j: nat)
    requires idle < |threads| && j < |threads|
  {
    && !threads[j].Ready(timeNow)
    && threads[idle].priority <= threads[j].priority
    && forall i :: 0 <= i < j && threads[i].Ready(timeNow) ==> threads[i].priority <= threads[j].priority
  }

  /** The wake-up time a selection must report: the earliest of those sleepers'. */
  ghost predicate IsEarliest(threads: seq<ThreadState>, idle: nat, timeNow: int, earliest: int)
    requires idle < |threads|
  {
    EarliestSoFar(threads, idle, timeNow, |threads|, earliest)
  }

  /** They include every sleeper that is not below the thread selected. */
  lemma SelectedIsCovered(threads: seq<ThreadState>, idle: nat, timeNow: int, k: nat, earliest: int, j: nat)
    requires idle < |threads| && IsSelection(threads, idle, timeNow, k) && IsEarliest(threads, idle, timeNow, earliest)
    requires j < |threads| && !threads[j].Ready(timeNow) && threads[k].priority <= threads[j].priority
    ensures earliest <= threads[j].suspendedUntil
  {
    assert Counts(threads, idle, timeNow, j);
  }

  // ---------------------------------------------------------------- threads

  class Thread {
    var priority: int
    var lastActivation: nat
    var suspendedUntil: int
    var waitingFor: int  // the signaler, 0 for none

    constructor (prio: int)
      ensures priority == prio && lastActivation == 0 && suspendedUntil == 0 && waitingFor == 0
    {
      priority, lastActivation, suspendedUntil, waitingFor := prio, 0, 0, 0;
    }

    ghost function State(): ThreadState
      reads this
    {
      ThreadState(priority, lastActivation, suspendedUntil, waitingFor)
    }

    method Resume()
      modifies this`waitingFor, this`suspendedUntil
      ensures waitingFor == 0 && suspendedUntil == 0
    {
      waitingFor := 0;
      suspendedUntil := 0;
    }
  }

  ghost function States(threads: seq<Thread>): (s: seq<ThreadState>)
    reads threads
    ensures |s| == |threads|
  {
    seq(|threads|, i requires 0 <= i < |threads| reads threads => threads[i].State())
  }

  /** The selection loop; the list holds the idle thread too. */
  method FindNextToRun(threads: seq<Thread>, idle: nat, timeNow: int) returns (next: nat, earliest: int)
    requires idle < |threads|
    requires forall t <- threads :: t.suspendedUntil <= END_OF_TIME
    ensures IsSelection(States(threads), idle, timeNow, next)
    ensures IsEarliest(States(threads), idle, timeNow, earliest)
    ensures earliest <= END_OF_TIME
  {
    next := idle;
    earliest := END_OF_TIME;
    ghost var s := States(threads);
    for n := 0 to |threads|
      invariant next < |threads| && earliest <= END_OF_TIME
      invariant SelectionSoFar(s, idle, timeNow, n, next)
      invariant EarliestSoFar(s, idle, timeNow, n, earliest)
    {
      var iter := threads[n];
      assert iter.State() == s[n] && threads[next].State() == s[next];
      BestSoFarTells(s, idle, timeNow, n, next);
      if iter.suspendedUntil < timeNow {
        if iter.priority > threads[next].priority {
          next := n;
        } else if iter.priority == threads[next].priority {
          if iter.lastActivation < threads[next].lastActivation {
            next := n;
          }
        }
      } else {
        if iter.priority >= threads[next].priority {
          earliest := Min(earliest, iter.suspendedUntil);
        }
      }
    }
  }

  ghost predicate SelectionSoFar(threads: seq<ThreadState>, idle: nat, timeNow: int, n: nat, k: nat)
    requires idle < |threads| && n <= |threads|
  {
    && k < |threads|
    && (k != idle ==> k < n && threads[k].Ready(timeNow) && threads[k].Before(threads[idle]))
    && (forall j :: 0 <= j < n && threads[j].Ready(timeNow) ==> !threads[j].Before(threads[k]))
    && (k != idle ==> forall j :: 0 <= j < k && threads[j].Ready(timeNow) ==> threads[k].Before(threads[j]))
  }

  ghost predicate EarliestSoFar(threads: seq<ThreadState>, idle: nat, timeNow: int, n: nat, earliest: int)
    requires idle < |threads| && n <= |threads|
  {
    && (earliest == END_OF_TIME ||
        exists j :: 0 <= j < n && Counts(threads, idle, timeNow, j) && threads[j].suspendedUntil == earliest)
    && (forall j :: 0 <= j < n && Counts(threads, idle, timeNow, j) ==> earliest <= threads[j].suspendedUntil)
  }

  /** The best thread so far tells whether the next one counts. */
  lemma BestSoFarTells(threads: seq<ThreadState>, idle: nat, timeNow: int, n: nat, k: nat)
    requires idle < |threads| && n < |threads| && SelectionSoFar(threads, idle, timeNow, n, k)
    ensures Counts(threads, idle, timeNow, n) <==> !threads[n].Ready(timeNow) && threads[k].priority <= threads[n].priority
  {
  }

  // ---------------------------------------------------------------- waiters

  /** The thread a semaphore hands over to: of the threads waiting for `signaler` that run before
      the idle thread, the first one nobody else among the waiting runs before. */
  ghost predicate IsNextWaiter(threads: seq<ThreadState>, idle: nat, signaler: int, r: Option<nat>)
    requires idle < |threads|
  {
    && (r.None? <==>
        forall j :: 0 <= j < |threads| && threads[j].waitingFor == signaler ==> !threads[j].Before(threads[idle]))
    && (r.Some? ==>
          && r.value < |threads| && threads[r.value].waitingFor == signaler
          && forall j :: 0 <= j < |threads| && threads[j].waitingFor == signaler ==>
               && !threads[j].Before(threads[r.value])
               && (j < r.value ==> threads[r.value].Before(threads[j])))
  }

  method FindNextWaitingFor(threads: seq<Thread>, idle: nat, signaler: int) returns (r: Option<nat>)
    requires idle < |threads|
    ensures IsNextWaiter(States(threads), idle, signaler, r)
  {
    var nextWaiter: nat := idle;
    ghost var s := States(threads);
    for n := 0 to |threads|
      invariant nextWaiter < |threads|
      invariant forall j :: 0 <= j < n && s[j].waitingFor == signaler ==> !s[j].Before(s[nextWaiter])
      invariant nextWaiter != idle ==>
                  && nextWaiter < n && s[nextWaiter].waitingFor == signaler
                  && s[nextWaiter].Before(s[idle])
                  && forall j :: 0 <= j < nextWaiter && s[j].waitingFor == signaler ==> s[nextWaiter].Before(s[j])
    {
      var iter := threads[n];
      assert iter.State() == s[n] && threads[nextWaiter].State() == s[nextWaiter];
      if iter.waitingFor == signaler {
        if iter.priority > threads[nextWaiter].priority {
          nextWaiter := n;
        } else if iter.priority == threads[nextWaiter].priority {
          if iter.lastActivation < threads[nextWaiter].lastActivation {
            nextWaiter := n;
          }
        }
      }
    }
    r := if nextWaiter == idle then None else Some(nextWaiter);
  }

  // ---------------------------------------------------------------- scheduling steps

  class Scheduler {
    const threads: seq<Thread>
    const idle: nat
    const timer: Timer
    var scheduleCounter: nat
    var preSelectedNextToRun: Option<nat>
    var preSelectedEarliestSuspendedUntil: int
    var timeToTryAgainToSchedule: int
    var currentThread: nat

    ghost predicate Valid()
      reads this, threads
    {
      && idle < |threads| && currentThread < |threads|
      && (forall i, j :: 0 <= i < j < |threads| ==> threads[i] != threads[j])
      && (forall t <- threads :: t.lastActivation <= scheduleCounter && t.suspendedUntil <= END_OF_TIME)
    }

    constructor (list: seq<Thread>, idleThread: nat)
      requires idleThread < |list|
      requires forall i, j :: 0 <= i < j < |list| ==> list[i] != list[j]
      requires forall t <- list :: t.lastActivation == 0 && t.suspendedUntil <= END_OF_TIME
      ensures Valid() && threads == list && idle == idleThread
      ensures preSelectedNextToRun.None? && scheduleCounter == 0
    {
      threads, idle := list, idleThread;
      timer := new Timer();
      scheduleCounter, currentThread := 0, idleThread;
      preSelectedNextToRun, preSelectedEarliestSuspendedUntil := None, END_OF_TIME;
      timeToTryAgainToSchedule := 0;
    }

    method Stamp(next: nat)
      requires Valid() && next < |threads|
      modifies threads[next]
      ensures States(threads) == old(States(threads))[next := old(threads[next].State()).(lastActivation := scheduleCounter)]
      ensures Valid()
    {
      threads[next].lastActivation := scheduleCounter;
    }

    /** A thread is resumed, and the scheduler told to look again at the next tick. */
    method Resume(who: nat)
      requires Valid() && who < |threads|
      modifies this`timeToTryAgainToSchedule, threads[who]
      ensures Valid() && timeToTryAgainToSchedule == 0
      ensures States(threads) ==
              old(States(threads))[who := old(threads[who].State()).(waitingFor := 0, suspendedUntil := 0)]
    {
      timeToTryAgainToSchedule := 0;
      threads[who].Resume();
    }

    /** The first half of a scheduling step: the preselected thread, or else a selection, and the time
        to try again. */
    method Select(timeNow: int) returns (next: nat, ghost earliest: int)
      requires Valid()
      requires preSelectedNextToRun.Some? ==> preSelectedNextToRun.value < |threads|
      modifies this`scheduleCounter, this`preSelectedNextToRun, this`timeToTryAgainToSchedule
      ensures Valid() && next < |threads|
      ensures old(preSelectedNextToRun).Some? ==>
                next == old(preSelectedNextToRun).value && earliest == old(preSelectedEarliestSuspendedUntil)
      ensures old(preSelectedNextToRun).None? ==>
                && IsSelection(States(threads), idle, timeNow, next)
                && IsEarliest(States(threads), idle, timeNow, earliest)
      ensures preSelectedNextToRun.None?
      ensures scheduleCounter == old(scheduleCounter) + 1
      ensures timeToTryAgainToSchedule == Min(earliest, TIME_SLICE_FOR_SAME_PRIORITY + timeNow)
    {
      scheduleCounter := scheduleCounter + 1;
      if preSelectedNextToRun.None? {
        var selectedEarliestSuspendedUntil;
        next, selectedEarliestSuspendedUntil := FindNextToRun(threads, idle, timeNow);
        earliest := selectedEarliestSuspendedUntil;
        timeToTryAgainToSchedule := Min(selectedEarliestSuspendedUntil, TIME_SLICE_FOR_SAME_PRIORITY + timeNow);
      } else {
        next := preSelectedNextToRun.value;
        earliest := preSelectedEarliestSuspendedUntil;
        timeToTryAgainToSchedule := Min(preSelectedEarliestSuspendedUntil, TIME_SLICE_FOR_SAME_PRIORITY + timeNow);
      }
      preSelectedNextToRun := None;
    }

    /** One scheduling step: the selected thread, and it alone, is stamped with the new count. */
    method Schedule(timeNow: int, nextTimeEventTime: int) returns (next: nat, ghost earliest: int)
      requires Valid()
      requires preSelectedNextToRun.Some? ==> preSelectedNextToRun.value < |threads|
      requires 0 <= timeNow && timeNow + 2 * MIN_SYS_TICK_SPACING <= END_OF_TIME
      modifies this`scheduleCounter, this`preSelectedNextToRun, this`timeToTryAgainToSchedule, timer, threads
      ensures Valid() && next < |threads|
      ensures old(preSelectedNextToRun).Some? ==>
                next == old(preSelectedNextToRun).value && earliest == old(preSelectedEarliestSuspendedUntil)
      ensures old(preSelectedNextToRun).None? ==>
                && IsSelection(old(States(threads)), idle, timeNow, next)
                && IsEarliest(old(States(threads)), idle, timeNow, earliest)
      ensures preSelectedNextToRun.None?
      ensures scheduleCounter == old(scheduleCounter) + 1
      ensures States(threads) == old(States(threads))[next := old(threads[next].State()).(lastActivation := scheduleCounter)]
      ensures timeToTryAgainToSchedule == Min(earliest, TIME_SLICE_FOR_SAME_PRIORITY + timeNow)
      ensures IsTick(timeNow, Min(timeToTryAgainToSchedule, nextTimeEventTime), timeNow + 1000 * timer.interval)
    {
      next, earliest := Select(timeNow);
      Stamp(next);
      timer.UpdateTriggerToNextTimingEvent(timeToTryAgainToSchedule, nextTimeEventTime, timeNow);
    }

    /** The caller gives up the processor, unless the selection falls on the caller itself; taken
        as one step, no timer interrupt coming in between. */
    method Yield(timeNow: int, nextTimeEventTime: int) returns (ghost earliest: int)
      requires Valid() && preSelectedNextToRun.None?
      requires 0 <= timeNow && timeNow + 2 * MIN_SYS_TICK_SPACING <= END_OF_TIME
      modifies this`scheduleCounter, this`preSelectedNextToRun, this`preSelectedEarliestSuspendedUntil
      modifies this`timeToTryAgainToSchedule, this`currentThread, timer, threads
      ensures Valid() && preSelectedNextToRun.None?
      ensures IsSelection(old(States(threads)), idle, timeNow, currentThread)
      ensures currentThread == old(currentThread) ==>
                scheduleCounter == old(scheduleCounter) && States(threads) == old(States(threads))
                && timeToTryAgainToSchedule == 0 && timer.interval == old(timer.interval)
      ensures currentThread != old(currentThread) ==>
                && scheduleCounter == old(scheduleCounter) + 1
                && States(threads) ==
                     old(States(threads))[currentThread := old(States(threads))[currentThread].(lastActivation := scheduleCounter)]
                && IsEarliest(old(States(threads)), idle, timeNow, earliest)
                && timeToTryAgainToSchedule == Min(earliest, TIME_SLICE_FOR_SAME_PRIORITY + timeNow)
                && IsTick(timeNow, Min(timeToTryAgainToSchedule, nextTimeEventTime), timeNow + 1000 * timer.interval)
    {
      timeToTryAgainToSchedule := 0;
      var preselection, selectedEarliestSuspendedUntil := FindNextToRun(threads, idle, timeNow);
      earliest := selectedEarliestSuspendedUntil;
      if preselection == currentThread {
        return;
      }
      preSelectedNextToRun := Some(preselection);
      preSelectedEarliestSuspendedUntil := selectedEarliestSuspendedUntil;
      assert States(threads) == old(States(threads));
      currentThread, earliest := Schedule(timeNow, nextTimeEventTime);
    }

    /** The timer interrupt, after the time events: a scheduling step if one is due, and in any
        case a new tick. */
    method SchedulerWrapper(timeNow: int, nextTimeEventTime: int) returns (ghost earliest: int)
      requires Valid() && preSelectedNextToRun.None?
      requires 0 <= timeNow && timeNow + 2 * MIN_SYS_TICK_SPACING <= END_OF_TIME
      modifies this`scheduleCounter, this`preSelectedNextToRun, this`timeToTryAgainToSchedule, this`currentThread, timer, threads
      ensures Valid() && preSelectedNextToRun.None?
      ensures IsTick(timeNow, Min(timeToTryAgainToSchedule, nextTimeEventTime), timeNow + 1000 * timer.interval)
      ensures timeNow < old(timeToTryAgainToSchedule) ==>
                && timeToTryAgainToSchedule == old(timeToTryAgainToSchedule)
                && currentThread == old(currentThread) && States(threads) == old(States(threads))
      ensures timeNow >= old(timeToTryAgainToSchedule) ==>
                && IsSelection(old(States(threads)), idle, timeNow, currentThread)
                && IsEarliest(old(States(threads)), idle, timeNow, earliest)
                && timeToTryAgainToSchedule == Min(earliest, TIME_SLICE_FOR_SAME_PRIORITY + timeNow)
                && States(threads) ==
                     old(States(threads))[currentThread := old(States(threads))[currentThread].(lastActivation := scheduleCounter)]
    {
      earliest := END_OF_TIME;
      var nextSchedulingEventTime := timeToTryAgainToSchedule;
      if timeNow < nextSchedulingEventTime {
        timer.UpdateTriggerToNextTimingEvent(nextSchedulingEventTime, nextTimeEventTime, timeNow);
      } else {
        currentThread, earliest := Schedule(timeNow, nextTimeEventTime);
      }
    }
  }
}
