/** How long a thread that sleeps in a semaphore can be passed over. The semaphore's machine runs under
    a scheduler: one thread at a time, stamped when it is activated, and a hand-over picks the sleeper
    whose stamp is oldest. Preemption and the choice of the next thread are left open. */
module HandOvers {
  import opened Common
  import opened Scheduling
  import Semaphore

  type ThreadId = Semaphore.ThreadId

  /** `stamps` are the threads' `lastActivation`, `count` the scheduler's counter. */
  datatype State = State(sem: Semaphore.State, stamps: map<ThreadId, nat>, count: nat, running: Option<ThreadId>)

  datatype Step =
    | Activate(t: ThreadId)       // a scheduling step, from a yield or a timer interrupt
    | Act(a: Semaphore.Action)

  ghost predicate Asleep(k: State, t: ThreadId) {
    t in k.stamps && Semaphore.IsWaiting(k.sem, t)
  }

  ghost predicate Oldest(k: State, w: ThreadId) {
    Asleep(k, w) && forall x :: Asleep(k, x) ==> k.stamps[w] <= k.stamps[x]
  }

  predicate IsHandOver(st: Step) {
    st.Act? && st.a.LeaveBlock? && st.a.waiter.Some?
  }

  /** What a thread does itself it does while it runs; others may resume it at any time. */
  ghost predicate Enabled(k: State, st: Step) {
    match st
    case Activate(t) => t in k.sem.threads && !Semaphore.IsWaiting(k.sem, t)
    case Act(a) =>
      && Semaphore.Enabled(k.sem, a)
      && (!a.Resume? ==> k.running == Some(a.t))
      && (IsHandOver(st) ==> Oldest(k, a.waiter.value))
  }

  ghost function Apply(k: State, st: Step): State
    requires Enabled(k, st)
  {
    match st
    case Activate(t) => State(k.sem, k.stamps[t := k.count + 1], k.count + 1, Some(t))
    case Act(a) =>
      var sem := Semaphore.Apply(k.sem, a);
      k.(sem := sem, running := if Semaphore.IsWaiting(sem, a.t) then None else k.running)
  }

  ghost predicate Init(k: State) {
    && Semaphore.Init(k.sem) && k.stamps.Keys == k.sem.threads.Keys && k.running.None?
    && forall t <- k.stamps :: k.stamps[t] <= k.count
  }

  ghost predicate Legal(k: State, run: seq<Step>)
    decreases |run|
  {
    run == [] || (Enabled(k, run[0]) && Legal(Apply(k, run[0]), run[1..]))
  }

  ghost function After(k: State, run: seq<Step>): State
    requires Legal(k, run)
    decreases |run|
  {
    if run == [] then k else After(Apply(k, run[0]), run[1..])
  }

  // ---------------------------------------------------------------- invariant

  /** The running thread was activated after everybody who sleeps. */
  ghost predicate Inv(k: State) {
    && k.stamps.Keys == k.sem.threads.Keys
    && (forall t <- k.stamps :: k.stamps[t] <= k.count)
    && (k.running.Some? ==>
          && k.running.value in k.stamps && !Asleep(k, k.running.value)
          && forall x :: Asleep(k, x) ==> k.stamps[x] < k.stamps[k.running.value])
  }

  /** A step of the semaphore puts nobody to sleep but the thread that takes it. */
  lemma OnlyActorFallsAsleep(s: Semaphore.State, a: Semaphore.Action, x: ThreadId)
    requires Semaphore.Enabled(s, a)
    ensures Semaphore.Apply(s, a).threads.Keys == s.threads.Keys
    ensures Semaphore.IsWaiting(Semaphore.Apply(s, a), x) ==> Semaphore.IsWaiting(s, x) || x == a.t
    ensures a.Resume? ==> !Semaphore.IsWaiting(Semaphore.Apply(s, a), a.t)
    ensures a.LeaveBlock? && a.waiter == Some(x) ==> !Semaphore.IsWaiting(Semaphore.Apply(s, a), x)
  {
  }

  lemma InvStep(k: State, st: Step)
    requires Inv(k) && Enabled(k, st)
    ensures Inv(Apply(k, st))
  {
    var n := Apply(k, st);
    if st.Act? {
      OnlyActorFallsAsleep(k.sem, st.a, st.a.t);
      if n.running.Some? {
        var r := n.running.value;
        OnlyActorFallsAsleep(k.sem, st.a, r);
        forall x | Asleep(n, x) ensures n.stamps[x] < n.stamps[r] {
          OnlyActorFallsAsleep(k.sem, st.a, x);
        }
      }
    }
  }

  lemma {:induction false} InvAfter(k: State, run: seq<Step>)
    requires Inv(k) && Legal(k, run)
    ensures Inv(After(k, run))
    decreases |run|
  {
    if run != [] {
      InvStep(k, run[0]);
      InvAfter(Apply(k, run[0]), run[1..]);
    }
  }

  // ---------------------------------------------------------------- relation to the semaphore and to the lists

  /** The semaphore's part of a run. */
  function Acts(run: seq<Step>): seq<Semaphore.Action> {
    if run == [] then [] else (if run[0].Act? then [run[0].a] else []) + Acts(run[1..])
  }

  /** Under the scheduler the semaphore does nothing it does not do without. */
  lemma {:induction false} IsSemaphoreRun(k: State, run: seq<Step>)
    requires Legal(k, run)
    ensures Semaphore.Legal(k.sem, Acts(run)) && Semaphore.After(k.sem, Acts(run)) == After(k, run).sem
    decreases |run|
  {
    if run != [] {
      var n := Apply(k, run[0]);
      IsSemaphoreRun(n, run[1..]);
      if run[0].Act? {
        assert Acts(run) == [run[0].a] + Acts(run[1..]);
        assert Acts(run)[1..] == Acts(run[1..]);
      } else {
        assert Acts(run) == Acts(run[1..]);
      }
    }
  }

  /** The choice the program makes from its list of threads is the one the machine makes. */
  lemma PickIsOldest(k: State, run: seq<Step>, t: ThreadId,
                     list: seq<ThreadState>, ids: seq<ThreadId>, idle: nat, signaler: int, r: Option<nat>)
    requires Init(k) && Legal(k, run)
    requires var e := After(k, run);
             && t in e.sem.threads && e.sem.threads[t].pc.LLast? && e.running == Some(t)
             && Semaphore.Lists(e.sem, list, ids, idle, signaler) && IsNextWaiter(list, idle, signaler, r)
             && forall i :: 0 <= i < |ids| && Asleep(e, ids[i]) ==> list[i].lastActivation == e.stamps[ids[i]]
    ensures r.Some? ==> r.value < |ids|
    ensures Enabled(After(k, run), Act(Semaphore.LeaveBlock(t, Semaphore.Found(ids, r))))
  {
    var e := After(k, run);
    InvAfter(k, run);
    IsSemaphoreRun(k, run);
    Semaphore.LeaveHandsOver(k.sem, Acts(run), t, list, ids, idle, signaler, r);
    Semaphore.CeilingAfter(k.sem, Acts(run));
    if r.Some? {
      var w := ids[r.value];
      forall x | Asleep(e, x) ensures e.stamps[w] <= e.stamps[x] {
        var i :| 0 <= i < |ids| && ids[i] == x;
        assert list[i].priority == Semaphore.CEILING_PRIORITY == list[r.value].priority;
        assert !list[i].Before(list[r.value]);
      }
    }
  }

  // ---------------------------------------------------------------- nobody is passed over for long

  /** The sleepers that were last activated no later than `t`. */
  ghost function Ahead(k: State, t: ThreadId): set<ThreadId>
    requires t in k.stamps
  {
    set x | x in k.stamps && x != t && Asleep(k, x) && k.stamps[x] <= k.stamps[t]
  }

  ghost predicate SleepsThrough(k: State, run: seq<Step>, t: ThreadId)
    requires Legal(k, run)
    decreases |run|
  {
    Asleep(k, t) && (run == [] || SleepsThrough(Apply(k, run[0]), run[1..], t))
  }

  /** How often the semaphore is handed over in a run. */
  function HandOversIn(run: seq<Step>): nat {
    if run == [] then 0 else (if IsHandOver(run[0]) then 1 else 0) + HandOversIn(run[1..])
  }

  /** Whoever falls asleep later is not ahead of `t`, and whoever is picked instead of it was. */
  lemma AheadShrinks(k: State, st: Step, t: ThreadId)
    requires Inv(k) && Enabled(k, st) && Asleep(k, t) && Asleep(Apply(k, st), t)
    ensures |Ahead(Apply(k, st), t)| + (if IsHandOver(st) then 1 else 0) <= |Ahead(k, t)|
  {
    var n := Apply(k, st);
    forall x | x in Ahead(n, t) ensures x in Ahead(k, t) && (IsHandOver(st) ==> x != st.a.waiter.value) {
      if st.Act? {
        OnlyActorFallsAsleep(k.sem, st.a, x);
      }
    }
    if IsHandOver(st) {
      var w := st.a.waiter.value;
      OnlyActorFallsAsleep(k.sem, st.a, w);
      assert w in Ahead(k, t);
      SubsetSize(Ahead(n, t), Ahead(k, t) - {w});
    } else {
      SubsetSize(Ahead(n, t), Ahead(k, t));
    }
  }

  lemma {:induction false} PassedOver(k: State, run: seq<Step>, t: ThreadId)
    requires Inv(k) && Legal(k, run) && SleepsThrough(k, run, t)
    ensures Asleep(After(k, run), t) && HandOversIn(run) + |Ahead(After(k, run), t)| <= |Ahead(k, t)|
    decreases |run|
  {
    if run != [] {
      var n := Apply(k, run[0]);
      AheadShrinks(k, run[0], t);
      InvStep(k, run[0]);
      PassedOver(n, run[1..], t);
    }
  }

  /** No waiter starves: from any moment of any run on, a thread that sleeps on has seen at most as many
      hand-overs to others as sleepers were ahead of it, however many have fallen asleep since. */
  lemma PickedInTurn(k: State, before: seq<Step>, run: seq<Step>, t: ThreadId)
    requires Init(k) && Legal(k, before) && Legal(After(k, before), run) && SleepsThrough(After(k, before), run, t)
    ensures var e := After(k, before);
            Asleep(After(e, run), t) && HandOversIn(run) + |Ahead(After(e, run), t)| <= |Ahead(e, t)|
  {
    InvAfter(k, before);
    PassedOver(After(k, before), run, t);
  }
}
