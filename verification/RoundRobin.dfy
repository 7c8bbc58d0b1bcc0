/** Round robin among the ready threads of the highest priority. */
module RoundRobin {
  import opened Common
  import opened Scheduling
  import opened TickTimer
  import opened TimeModel

  /** `top` are the ready threads that share the highest priority, above the idle thread's. */
  ghost predicate IsTop(threads: seq<ThreadState>, idle: nat, timeNow: int, top: set<nat>) {
    && idle < |threads|
    && (forall j <- top :: j < |threads| && threads[j].Ready(timeNow) && threads[j].priority > threads[idle].priority)
    && (forall i, j :: i in top && 0 <= j < |threads| && threads[j].Ready(timeNow) ==>
          if j in top then threads[j].priority == threads[i].priority else threads[j].priority < threads[i].priority)
  }

  /** Between two scheduling steps anything may change but the stamps of the threads in `top`;
      the step itself stamps the picked thread. */
  ghost predicate Stamps(before: seq<ThreadState>, after: seq<ThreadState>, top: set<nat>, pick: nat, stamp: nat) {
    forall j <- top ::
      && j < |before| && j < |after|
      && after[j].lastActivation == if j == pick then stamp else before[j].lastActivation
  }

  ghost predicate Turn(before: seq<ThreadState>, now: int, pick: nat, after: seq<ThreadState>,
                       idle: nat, top: set<nat>, stamp: nat) {
    IsTop(before, idle, now, top) && IsSelection(before, idle, now, pick) && Stamps(before, after, top, pick, stamp)
  }

  /** Consecutive scheduling steps while `top` stays the same; `count` is the scheduler's counter
      before the first. */
  datatype Window = Window(threads: seq<seq<ThreadState>>, nows: seq<int>, picks: seq<nat>, count: nat) {

    ghost predicate Follows(idle: nat, top: set<nat>) {
      && |threads| == |picks| + 1 && |nows| == |picks|
      && (forall i :: 0 <= i < |picks| ==> Turn(threads[i], nows[i], picks[i], threads[i + 1], idle, top, count + i + 1))
      && (forall j <- top :: j < |threads[0]| ==> threads[0][j].lastActivation <= count)
    }
  }

  lemma TurnAt(w: Window, idle: nat, top: set<nat>, i: nat)
    requires w.Follows(idle, top) && i < |w.picks|
    ensures IsTop(w.threads[i], idle, w.nows[i], top) && IsSelection(w.threads[i], idle, w.nows[i], w.picks[i])
    ensures Stamps(w.threads[i], w.threads[i + 1], top, w.picks[i], w.count + i + 1)
  {
    assert Turn(w.threads[i], w.nows[i], w.picks[i], w.threads[i + 1], idle, top, w.count + i + 1);
  }

  /** A selection falls on a least recently activated thread of `top`. */
  lemma SelectionIsInTop(threads: seq<ThreadState>, idle: nat, timeNow: int, top: set<nat>, k: nat)
    requires IsTop(threads, idle, timeNow, top) && top != {}
    requires IsSelection(threads, idle, timeNow, k)
    ensures k in top
    ensures forall j <- top :: threads[k].lastActivation <= threads[j].lastActivation
  {
    var t :| t in top;
    assert !threads[t].Before(threads[k]);
    assert threads[t].Before(threads[idle]);
    assert k != idle && threads[k].Ready(timeNow);
  }

  /** A thread not picked yet, while there are fewer picks than threads. */
  lemma SomeoneLeft(picks: seq<nat>, top: set<nat>) returns (j: nat)
    requires NoDuplicates(picks) && ElementsOf(picks) <= top && |picks| < |top|
    ensures j in top && j !in picks
  {
    DistinctCount(picks);
    assert ElementsOf(picks) != top;
    j :| j in top && j !in ElementsOf(picks);
  }

  ghost predicate Stamped(threads: seq<ThreadState>, j: nat, stamp: nat) {
    j < |threads| && threads[j].lastActivation == stamp
  }

  /** While the window is no longer than `top` is large: picks are distinct, stamps tell who
      was picked and when. */
  ghost predicate Progress(w: Window, top: set<nat>, n: nat)
    requires n <= |w.picks| && n < |w.threads|
  {
    && NoDuplicates(w.picks[..n]) && ElementsOf(w.picks[..n]) <= top
    && (forall m :: 0 <= m < n ==> Stamped(w.threads[n], w.picks[m], w.count + m + 1))
    && (forall j <- top :: j < |w.threads[n]| && (j !in w.picks[..n] ==> w.threads[n][j].lastActivation <= w.count))
  }

  lemma PickIsNew(w: Window, idle: nat, top: set<nat>, n: nat)
    requires w.Follows(idle, top) && n < |w.picks| && n < |top|
    requires Progress(w, top, n)
    ensures w.picks[n] in top && w.picks[n] !in w.picks[..n]
  {
    TurnAt(w, idle, top, n);
    SelectionIsInTop(w.threads[n], idle, w.nows[n], top, w.picks[n]);
    var j := SomeoneLeft(w.picks[..n], top);
    assert w.threads[n][w.picks[n]].lastActivation <= w.threads[n][j].lastActivation;
    assert w.picks[n] !in w.picks[..n];
  }

  lemma StampsKept(w: Window, top: set<nat>, n: nat)
    requires n < |w.picks| && n + 1 < |w.threads| && Progress(w, top, n)
    requires Stamps(w.threads[n], w.threads[n + 1], top, w.picks[n], w.count + n + 1)
    requires w.picks[n] in top && w.picks[n] !in w.picks[..n]
    ensures forall m :: 0 <= m < n + 1 ==> Stamped(w.threads[n + 1], w.picks[m], w.count + m + 1)
  {
    forall m | 0 <= m < n ensures Stamped(w.threads[n + 1], w.picks[m], w.count + m + 1) {
      assert w.picks[m] == w.picks[..n][m] && w.picks[m] in ElementsOf(w.picks[..n]);
      assert Stamped(w.threads[n], w.picks[m], w.count + m + 1);
    }
  }

  lemma NewPickKeepsDistinct(picks: seq<nat>, pick: nat, top: set<nat>)
    requires NoDuplicates(picks) && ElementsOf(picks) <= top && pick in top && pick !in picks
    ensures NoDuplicates(picks + [pick]) && ElementsOf(picks + [pick]) <= top
  {
  }

  lemma ProgressStep(w: Window, top: set<nat>, n: nat)
    requires n < |w.picks| && n + 1 < |w.threads| && Progress(w, top, n)
    requires Stamps(w.threads[n], w.threads[n + 1], top, w.picks[n], w.count + n + 1)
    requires w.picks[n] in top && w.picks[n] !in w.picks[..n]
    ensures Progress(w, top, n + 1)
  {
    StampsKept(w, top, n);
    NewPickKeepsDistinct(w.picks[..n], w.picks[n], top);
    assert w.picks[..n + 1] == w.picks[..n] + [w.picks[n]];
  }

  lemma NothingPickedYet(w: Window, idle: nat, top: set<nat>)
    requires w.Follows(idle, top) && 0 < |w.picks|
    ensures Progress(w, top, 0)
  {
    TurnAt(w, idle, top, 0);
    assert w.picks[..0] == [];
    assert forall j <- top :: j < |w.threads[0]|;
  }

  lemma ProgressNext(w: Window, idle: nat, top: set<nat>, n: nat)
    requires w.Follows(idle, top) && n < |w.picks| && n < |top| && Progress(w, top, n)
    ensures Progress(w, top, n + 1)
  {
    TurnAt(w, idle, top, n);
    PickIsNew(w, idle, top, n);
    ProgressStep(w, top, n);
  }

  lemma {:induction false} ProgressAt(w: Window, idle: nat, top: set<nat>, n: nat)
    requires w.Follows(idle, top) && n <= |w.picks| && 0 < |w.picks| && n <= |top|
    ensures Progress(w, top, n)
  {
    if n == 0 {
      NothingPickedYet(w, idle, top);
    } else {
      ProgressAt(w, idle, top, n - 1);
      ProgressNext(w, idle, top, n - 1);
    }
  }

  /** Nobody starves: as many steps as there are threads activate each of them exactly once,
      whatever their stamps were, ties included. */
  lemma EachExactlyOnce(w: Window, idle: nat, top: set<nat>)
    requires w.Follows(idle, top) && 0 < |top| <= |w.picks|
    ensures NoDuplicates(w.picks[..|top|]) && ElementsOf(w.picks[..|top|]) == top
  {
    ProgressAt(w, idle, top, |top|);
    DistinctCount(w.picks[..|top|]);
    SubsetOfSameSize(ElementsOf(w.picks[..|top|]), top);
  }

  /** ... and the next step starts the same order again. */
  lemma OrderRepeats(w: Window, idle: nat, top: set<nat>)
    requires w.Follows(idle, top) && 0 < |top| < |w.picks|
    ensures w.picks[|top|] == w.picks[0]
  {
    var n := |top|;
    ProgressAt(w, idle, top, n);
    EachExactlyOnce(w, idle, top);
    TurnAt(w, idle, top, n);
    SelectionIsInTop(w.threads[n], idle, w.nows[n], top, w.picks[n]);
    var m := IndexOf(w.picks[..n], w.picks[n]);
    assert w.picks[0] == w.picks[..n][0] && w.picks[0] in ElementsOf(w.picks[..n]);
    assert Stamped(w.threads[n], w.picks[m], w.count + m + 1);
    assert Stamped(w.threads[n], w.picks[0], w.count + 0 + 1);
  }

  lemma IndexOf(picks: seq<nat>, x: nat) returns (m: nat)
    requires x in ElementsOf(picks)
    ensures m < |picks| && picks[m] == x
  {
    m :| m < |picks| && picks[m] == x;
  }

  // ---------------------------------------------------------------- the scheduler itself

  lemma StampKeepsTop(threads: seq<ThreadState>, idle: nat, timeNow: int, top: set<nat>, k: nat, stamp: nat)
    requires IsTop(threads, idle, timeNow, top) && k < |threads|
    ensures IsTop(threads[k := threads[k].(lastActivation := stamp)], idle, timeNow, top)
  {
    var after := threads[k := threads[k].(lastActivation := stamp)];
    forall j | 0 <= j < |threads|
      ensures after[j].priority == threads[j].priority && after[j].Ready(timeNow) == threads[j].Ready(timeNow)
    {
    }
  }

  ghost predicate AlwaysTop(threads: seq<ThreadState>, idle: nat, nows: seq<int>, top: set<nat>) {
    forall i :: 0 <= i < |nows| ==> IsTop(threads, idle, nows[i], top)
  }

  /** One scheduling step more. */
  method TakeTurn(s: Scheduler, ghost w: Window, nows: seq<int>, n: nat, nextTimeEventTime: int, ghost top: set<nat>)
    returns (next: nat, ghost longer: Window)
    requires s.Valid() && s.preSelectedNextToRun.None? && n < |nows|
    requires 0 <= nows[n] && nows[n] + 2 * MIN_SYS_TICK_SPACING <= END_OF_TIME
    requires AlwaysTop(States(s.threads), s.idle, nows, top)
    requires w.Follows(s.idle, top) && |w.picks| == n && w.threads[n] == States(s.threads) && s.scheduleCounter == w.count + n
    modifies s, s.timer, s.threads
    ensures s.Valid() && s.preSelectedNextToRun.None? && s.scheduleCounter == old(s.scheduleCounter) + 1
    ensures AlwaysTop(States(s.threads), s.idle, nows, top)
    ensures longer == Window(w.threads + [States(s.threads)], w.nows + [nows[n]], w.picks + [next], w.count)
    ensures longer.Follows(s.idle, top)
  {
    ghost var before, idle := States(s.threads), s.idle;
    ghost var earliest;
    next, earliest := s.Schedule(nows[n], nextTimeEventTime);
    ghost var after := States(s.threads);
    assert after == before[next := before[next].(lastActivation := s.scheduleCounter)];
    forall i | 0 <= i < |nows| ensures IsTop(after, idle, nows[i], top) {
      StampKeepsTop(before, idle, nows[i], top, next, s.scheduleCounter);
    }
    Lengthen(w, idle, top, after, nows[n], next);
    longer := Window(w.threads + [after], w.nows + [nows[n]], w.picks + [next], w.count);
  }

  /** As many scheduling steps as there are threads in `top`, nothing else happening in between:
      the scheduler activates each of them exactly once. */
  method Turns(s: Scheduler, nows: seq<int>, nextTimeEventTime: int, ghost top: set<nat>) returns (picks: seq<nat>)
    requires s.Valid() && s.preSelectedNextToRun.None? && |nows| == |top| > 0
    requires forall i :: 0 <= i < |nows| ==> 0 <= nows[i] && nows[i] + 2 * MIN_SYS_TICK_SPACING <= END_OF_TIME
    requires AlwaysTop(States(s.threads), s.idle, nows, top)
    modifies s, s.timer, s.threads
    ensures s.Valid()
    ensures NoDuplicates(picks) && ElementsOf(picks) == top
  {
    picks := [];
    ghost var w := Window([States(s.threads)], [], [], s.scheduleCounter);
    for n := 0 to |nows|
      invariant s.Valid() && s.preSelectedNextToRun.None? && s.scheduleCounter == w.count + n
      invariant w.picks == picks && |picks| == n && |w.threads| == n + 1 && w.threads[n] == States(s.threads)
      invariant AlwaysTop(States(s.threads), s.idle, nows, top)
      invariant w.Follows(s.idle, top)
    {
      var next;
      next, w := TakeTurn(s, w, nows, n, nextTimeEventTime, top);
      picks := picks + [next];
    }
    EachExactlyOnce(w, s.idle, top);
    assert picks[..|top|] == picks;
  }

  lemma Lengthen(w: Window, idle: nat, top: set<nat>, after: seq<ThreadState>, now: int, pick: nat)
    requires w.Follows(idle, top)
    requires Turn(w.threads[|w.picks|], now, pick, after, idle, top, w.count + |w.picks| + 1)
    ensures Window(w.threads + [after], w.nows + [now], w.picks + [pick], w.count).Follows(idle, top)
  {
  }
}
