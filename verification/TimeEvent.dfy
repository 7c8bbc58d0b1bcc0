/** Time events: armed with a time and a period, handled by `Propagate` once that time is past. */
module TimeEvents {
  import opened Common
  import opened TimeModel

  // ---------------------------------------------------------------- one event on values

  /** The time an event armed with `at` is armed with after a pass at `timeNow`. */
  function Rearmed(at: int, period: int, timeNow: int): int {
    if at >= timeNow then at
    else if period == 0 then END_OF_TIME
    else ComputeNextBeat(at, period, timeNow)
  }

  /** A call of the handler: the beat it was armed for and the time of the pass. */
  datatype Call = Call(beat: int, when: int)

  // ---------------------------------------------------------------- the list of events

  class TimeEvent {
    var eventAt: int
    var eventPeriod: int
    ghost var calls: seq<Call>  // every call of handle() so far

    constructor ()
      ensures eventAt == END_OF_TIME && eventPeriod == 0 && calls == []
    {
      eventAt, eventPeriod := END_OF_TIME, 0;
      calls := [];
    }

    method ActivateAt(time: int)
      modifies this`eventAt, this`eventPeriod
      ensures eventAt == time && eventPeriod == 0
    {
      eventAt := time;
      eventPeriod := 0;
    }

    method ActivatePeriodic(startAt: int, period: int)
      modifies this`eventAt, this`eventPeriod
      ensures eventAt == startAt && eventPeriod == period
    {
      eventPeriod := period;
      eventAt := startAt;
    }

    /** A handler that does not re-arm. */
    method Handle(ghost beat: int, ghost when: int)
      modifies this`calls
      ensures calls == old(calls) + [Call(beat, when)]
    {
      calls := calls + [Call(beat, when)];
    }
  }

  /** The body of the loop of `Propagate`. */
  method PropagateOne(iter: TimeEvent, timeNow: int) returns (handled: bool)
    modifies iter
    ensures handled == (old(iter.eventAt) < timeNow)
    ensures Passed(iter, old(iter.eventAt), old(iter.eventPeriod), old(iter.calls), timeNow)
  {
    var iterEventAt := iter.eventAt;
    handled := iterEventAt < timeNow;
    if handled {
      var iterEventPeriod := iter.eventPeriod;
      if iterEventPeriod == 0 {
        iter.eventAt := END_OF_TIME;
      } else {
        iter.eventAt := iterEventAt + iterEventPeriod;
        if iterEventAt < timeNow {
          iter.eventAt := ComputeNextBeat(iterEventAt, iterEventPeriod, timeNow);
        }
      }
      iter.Handle(iterEventAt, timeNow);
    }
  }

  ghost predicate Distinct(events: seq<TimeEvent>) {
    forall i, j :: 0 <= i < j < |events| ==> events[i] != events[j]
  }

  /** The events armed for a time that is past. */
  function Due(times: seq<int>, timeNow: int): set<nat> {
    set i: nat | i < |times| && times[i] < timeNow
  }

  lemma OneDueMore(times: seq<int>, n: nat, timeNow: int)
    requires n < |times|
    ensures |Due(times[..n + 1], timeNow)| == |Due(times[..n], timeNow)| + if times[n] < timeNow then 1 else 0
  {
    assert Due(times[..n + 1], timeNow) == Due(times[..n], timeNow) + if times[n] < timeNow then {n} else {};
  }

  ghost function ArmedTimes(events: seq<TimeEvent>): (times: seq<int>)
    reads events
    ensures |times| == |events|
  {
    seq(|events|, i requires 0 <= i < |events| reads events => events[i].eventAt)
  }

  /** What a pass did to one event, given its fields before. */
  ghost predicate Passed(e: TimeEvent, at: int, period: int, calls: seq<Call>, timeNow: int)
    reads e
  {
    && e.eventPeriod == period
    && e.eventAt == Rearmed(at, period, timeNow)
    && e.calls == calls + if at < timeNow then [Call(at, timeNow)] else []
  }

  /** One pass: each due event is handled once, the others are left alone. */
  method Propagate(events: seq<TimeEvent>, timeNow: int) returns (cnt: nat)
    requires Distinct(events)
    modifies events
    ensures forall e <- events :: Passed(e, old(e.eventAt), old(e.eventPeriod), old(e.calls), timeNow)
    ensures cnt == |Due(old(ArmedTimes(events)), timeNow)|
  {
    cnt := 0;
    ghost var times := ArmedTimes(events);
    for n := 0 to |events|
      invariant forall i :: n <= i < |events| ==>
                  events[i].eventAt == old(events[i].eventAt)
                  && events[i].eventPeriod == old(events[i].eventPeriod)
                  && events[i].calls == old(events[i].calls)
      invariant forall i :: 0 <= i < n ==>
                  Passed(events[i], old(events[i].eventAt), old(events[i].eventPeriod), old(events[i].calls), timeNow)
      invariant cnt == |Due(times[..n], timeNow)|
    {
      OneDueMore(times, n, timeNow);
      var handled := PropagateOne(events[n], timeNow);
      if handled {
        cnt := cnt + 1;
      }
    }
    assert times[..|events|] == times;
  }

  method GetNextTriggerTime(events: seq<TimeEvent>) returns (nextTriggerTime: int)
    ensures nextTriggerTime <= END_OF_TIME
    ensures forall e <- events :: nextTriggerTime <= e.eventAt
    ensures nextTriggerTime == END_OF_TIME || exists e <- events :: e.eventAt == nextTriggerTime
  {
    nextTriggerTime := END_OF_TIME;
    for n := 0 to |events|
      invariant nextTriggerTime <= END_OF_TIME
      invariant forall i :: 0 <= i < n ==> nextTriggerTime <= events[i].eventAt
      invariant nextTriggerTime == END_OF_TIME || exists i :: 0 <= i < n && events[i].eventAt == nextTriggerTime
    {
      var currentEventTime := events[n].eventAt;
      if currentEventTime < nextTriggerTime {
        nextTriggerTime := currentEventTime;
      }
    }
  }

  /** After a pass nothing is armed in the past, whatever the arguments of the events were. */
  lemma NothingLeftInThePast(at: int, period: int, timeNow: int)
    requires timeNow <= END_OF_TIME
    ensures timeNow <= Rearmed(at, period, timeNow)
  {
    if Beats(at, period, timeNow) {
      var k := NextBeatIsLeast(at, period, timeNow);
    }
  }

  /** A pass followed by a query, as the timer does it. */
  method PropagateAndRearm(events: seq<TimeEvent>, timeNow: int) returns (cnt: nat, nextTriggerTime: int)
    requires Distinct(events) && timeNow <= END_OF_TIME
    modifies events
    ensures timeNow <= nextTriggerTime <= END_OF_TIME
    ensures forall e <- events :: nextTriggerTime <= e.eventAt
    ensures cnt == |Due(old(ArmedTimes(events)), timeNow)|
  {
    cnt := Propagate(events, timeNow);
    nextTriggerTime := GetNextTriggerTime(events);
    forall e | e in events ensures timeNow <= e.eventAt {
      NothingLeftInThePast(old(e.eventAt), old(e.eventPeriod), timeNow);
    }
  }

  // ---------------------------------------------------------------- one event over a run of passes

  /** The armed time after passes at the given times, and the handler calls they make. */
  function Passes(at: int, period: int, whens: seq<int>): (int, seq<Call>)
    decreases |whens|
  {
    if whens == [] then (at, [])
    else
      var (last, calls) := Passes(at, period, whens[..|whens| - 1]);
      var now := whens[|whens| - 1];
      (Rearmed(last, period, now), calls + if last < now then [Call(last, now)] else [])
  }

  /** What passes at the given times make of an event, given its fields before. */
  ghost predicate PassedAll(e: TimeEvent, at: int, period: int, calls: seq<Call>, whens: seq<int>)
    reads e
  {
    && e.eventPeriod == period
    && e.eventAt == Passes(at, period, whens).0
    && e.calls == calls + Passes(at, period, whens).1
  }

  lemma OnePassMore(at: int, period: int, whens: seq<int>, now: int)
    ensures var (last, calls) := Passes(at, period, whens);
            Passes(at, period, whens + [now]) ==
              (Rearmed(last, period, now), calls + if last < now then [Call(last, now)] else [])
  {
    assert (whens + [now])[..|whens|] == whens;
  }

  /** Pass after pass over all events: each of them goes its own way. */
  method PropagateAt(events: seq<TimeEvent>, whens: seq<int>)
    requires Distinct(events)
    modifies events
    ensures forall e <- events :: PassedAll(e, old(e.eventAt), old(e.eventPeriod), old(e.calls), whens)
  {
    for n := 0 to |whens|
      invariant forall e <- events :: PassedAll(e, old(e.eventAt), old(e.eventPeriod), old(e.calls), whens[..n])
    {
      label Before:
      var cnt := Propagate(events, whens[n]);
      assert whens[..n + 1] == whens[..n] + [whens[n]];
      forall e | e in events
        ensures PassedAll(e, old(e.eventAt), old(e.eventPeriod), old(e.calls), whens[..n + 1])
      {
        var at, period, calls := old(e.eventAt), old(e.eventPeriod), old(e.calls);
        assert old@Before(PassedAll(e, at, period, calls, whens[..n]));
        assert Passed(e, old@Before(e.eventAt), old@Before(e.eventPeriod), old@Before(e.calls), whens[n]);
        OnePassMore(at, period, whens[..n], whens[n]);
      }
    }
    assert whens[..|whens|] == whens;
  }

  /** `at` is the first beat after everything handled so far. */
  ghost predicate ArmedForNext(startAt: int, period: int, calls: seq<Call>, at: int, k: nat) {
    && at == Beat(startAt, period, k)
    && (calls == [] ==> k == 0)
    && (calls != [] ==> calls[|calls| - 1].when < at)
    && (forall j: nat :: j < k ==> calls != [] && Beat(startAt, period, j) <= calls[|calls| - 1].when)
  }

  /** Calls come in order, each after its own beat and before the beat of the next. */
  ghost predicate WellTimed(startAt: int, period: int, calls: seq<Call>) {
    && (forall i :: 0 <= i < |calls| ==>
          calls[i].beat < calls[i].when && exists k: nat :: calls[i].beat == Beat(startAt, period, k))
    && (forall i, j :: 0 <= i < j < |calls| ==> calls[i].when < calls[j].beat)
  }

  ghost predicate PeriodicState(startAt: int, period: int, at: int, calls: seq<Call>, k: nat) {
    ArmedForNext(startAt, period, calls, at, k) && WellTimed(startAt, period, calls)
  }

  /** A pass that finds the event due. */
  lemma PeriodicCall(startAt: int, period: int, at: int, calls: seq<Call>, k: nat, now: int) returns (next: nat)
    requires 0 <= startAt && 0 < period && now + period <= END_OF_TIME
    requires PeriodicState(startAt, period, at, calls, k) && at < now
    ensures PeriodicState(startAt, period, Rearmed(at, period, now), calls + [Call(at, now)], next)
  {
    BeatsAdd(startAt, period, 0, k);
    MultiplyMonotone(0, k, period);
    var m := NextBeatIsLeast(at, period, now);
    BeatsAdd(startAt, period, k, m);
    next := k + m;
    forall j: nat | j < next ensures Beat(startAt, period, j) <= now {
      BeatsAdd(startAt, period, k, j - k);
      assert now < at + (j - k) * period ==> m <= j - k;
    }
    WellTimedExtends(startAt, period, calls, k, Call(at, now));
  }

  lemma WellTimedExtends(startAt: int, period: int, calls: seq<Call>, k: nat, call: Call)
    requires WellTimed(startAt, period, calls)
    requires call.beat == Beat(startAt, period, k) && call.beat < call.when
    requires calls != [] ==> calls[|calls| - 1].when < call.beat
    ensures WellTimed(startAt, period, calls + [call])
  {
  }

  /** A periodic event over any run of passes, at whatever times: it stays armed for the first beat behind the last
      pass that handled it, and its handler is called late, never early, never twice for a beat. */
  lemma {:induction false} PeriodicRun(startAt: int, period: int, whens: seq<int>) returns (k: nat)
    requires 0 <= startAt && 0 < period
    requires forall i :: 0 <= i < |whens| ==> whens[i] + period <= END_OF_TIME
    ensures var (at, calls) := Passes(startAt, period, whens);
            && ArmedForNext(startAt, period, calls, at, k)
            && WellTimed(startAt, period, calls)
    decreases |whens|
  {
    if whens == [] {
      k := 0;
    } else {
      var front, now := whens[..|whens| - 1], whens[|whens| - 1];
      var (at, calls) := Passes(startAt, period, front);
      k := PeriodicRun(startAt, period, front);
      if at < now {
        k := PeriodicCall(startAt, period, at, calls, k, now);
      }
    }
  }

  /** A pass handles a periodic event exactly when a beat lies between the last pass that
      handled it and this one. */
  lemma PassHandlesIffBeatPassed(startAt: int, period: int, whens: seq<int>, now: int)
    requires 0 <= startAt && 0 < period
    requires forall i :: 0 <= i < |whens| ==> whens[i] + period <= END_OF_TIME
    ensures var (at, calls) := Passes(startAt, period, whens);
            at < now <==>
            exists j: nat :: Beat(startAt, period, j) < now
                          && (calls != [] ==> calls[|calls| - 1].when < Beat(startAt, period, j))
  {
    var (at, calls) := Passes(startAt, period, whens);
    var k := PeriodicRun(startAt, period, whens);
    forall j: nat | Beat(startAt, period, j) < now && (calls != [] ==> calls[|calls| - 1].when < Beat(startAt, period, j))
      ensures at < now
    {
      if j >= k {
        MultiplyMonotone(k, j, period);
      }
    }
  }

  /** A one-shot event is handled at most once in any run. */
  lemma {:induction false} OneShotRun(at: int, whens: seq<int>)
    requires forall i :: 0 <= i < |whens| ==> whens[i] <= END_OF_TIME
    ensures var (armed, calls) := Passes(at, 0, whens);
            && |calls| <= 1
            && (calls == [] ==> armed == at && forall i :: 0 <= i < |whens| ==> whens[i] <= at)
            && (calls != [] ==> armed == END_OF_TIME && calls[0].beat == at < calls[0].when)
    decreases |whens|
  {
    if whens != [] {
      OneShotRun(at, whens[..|whens| - 1]);
    }
  }

  // ---------------------------------------------------------------- which events repeat

  /** The arguments of `activatePeriodic` that give more than one call. */
  predicate Repeats(startAt: int, period: int) {
    0 <= startAt && 0 < period < END_OF_TIME - startAt
  }

  /** With any other arguments the handler is called at most once, over every run of passes: the
      one call disarms the event for good. */
  lemma {:induction false} HandledOnce(startAt: int, period: int, whens: seq<int>)
    requires !Repeats(startAt, period)
    requires forall i :: 0 <= i < |whens| ==> whens[i] <= END_OF_TIME
    ensures var (armed, calls) := Passes(startAt, period, whens);
            && |calls| <= 1
            && armed == (if calls == [] then startAt else END_OF_TIME)
            && (calls != [] <==> exists i :: 0 <= i < |whens| && startAt < whens[i])
    decreases |whens|
  {
    if whens != [] {
      var front, now := whens[..|whens| - 1], whens[|whens| - 1];
      HandledOnce(startAt, period, front);
      assert forall i :: 0 <= i < |front| ==> front[i] == whens[i];
      if Passes(startAt, period, front).1 == [] && startAt < now {
        assert Rearmed(startAt, period, now) == END_OF_TIME;
      }
    }
  }

  /** Once handled, an event is armed again exactly when its arguments are such. */
  lemma ArmedAgainIff(startAt: int, period: int, whens: seq<int>)
    requires forall i :: 0 <= i < |whens| ==> whens[i] <= END_OF_TIME
    requires Repeats(startAt, period) ==> forall i :: 0 <= i < |whens| ==> whens[i] + period < END_OF_TIME
    requires Passes(startAt, period, whens).1 != []
    ensures Passes(startAt, period, whens).0 < END_OF_TIME <==> Repeats(startAt, period)
  {
    if Repeats(startAt, period) {
      ArmedInTime(startAt, period, whens);
    } else {
      HandledOnce(startAt, period, whens);
    }
  }

  lemma {:induction false} ArmedInTime(startAt: int, period: int, whens: seq<int>)
    requires Repeats(startAt, period)
    requires forall i :: 0 <= i < |whens| ==> whens[i] + period < END_OF_TIME
    ensures 0 <= Passes(startAt, period, whens).0 < END_OF_TIME
    decreases |whens|
  {
    if whens != [] {
      var front, now := whens[..|whens| - 1], whens[|whens| - 1];
      ArmedInTime(startAt, period, front);
      var at := Passes(startAt, period, front).0;
      if at < now {
        var k := NextBeatIsLeast(at, period, now);
      }
    }
  }

  /** A periodic event that starts at a negative time is handled once and never again: its next
      beat is refused, whenever the passes come. */
  lemma NegativeStartStops(startAt: int, period: int, whens: seq<int>)
    requires startAt < 0
    requires forall i :: 0 <= i < |whens| ==> whens[i] <= END_OF_TIME
    ensures var (armed, calls) := Passes(startAt, period, whens);
            |calls| <= 1 && (calls != [] ==> armed == END_OF_TIME)
  {
    HandledOnce(startAt, period, whens);
  }
}
