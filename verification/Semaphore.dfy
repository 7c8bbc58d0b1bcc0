/** The re-entrant semaphore as a machine of atomic steps taken by any number of threads.

    What a thread does between raising and dropping the ceiling priority is one step, up to the
    point where it suspends itself; every unprotected access to shared data is a step of its own.
    A hand-over may pick any waiting thread, and anybody may resume a waiting thread at any time. */
module Semaphore {
  import opened Common
  import Scheduling

  type ThreadId = nat

  const CEILING_PRIORITY: int := 1003

  /** Where a thread is in `enter` (E) or `leave` (L); `Running` is anywhere else. */
  datatype Pc =
    | Running
    | ESampled(callerPriority: int)                 // own priority read
    | EWaiting(callerPriority: int, previous: int)  // suspended; `previous` is to be restored
    | EWoken(callerPriority: int, previous: int)    // resumed, has not run yet
    | LChecked                                      // found itself to be the owner
    | LLoaded(count: int)                           // has read the counter
    | LStored                                       // has written the counter
    | LLast                                         // found the counter to be 0
    | LRestoring(currentOwnerPriority: int)         // released; own priority still to be set

  /** `base` is the priority the application gave the thread, `depth` how often it is inside,
      `sample` what it last recorded as its priority on entering; the program has none of them. */
  datatype Thread = Thread(pc: Pc, priority: int, base: int, depth: int, sample: int)

  datatype State = State(owner: Option<ThreadId>, ownerEnterCnt: int, ownerPriority: int, threads: map<ThreadId, Thread>)

  datatype Action =
    | EnterSample(t: ThreadId)
    | EnterBlock(t: ThreadId)
    | Resume(t: ThreadId)        // by anybody, for any reason
    | EnterWake(t: ThreadId)
    | LeaveCheck(t: ThreadId)
    | LeaveLoad(t: ThreadId)
    | LeaveStore(t: ThreadId)
    | LeaveTest(t: ThreadId)
    | LeaveBlock(t: ThreadId, waiter: Option<ThreadId>)
    | LeaveRestore(t: ThreadId)

  function Set(s: State, t: ThreadId, th: Thread): State {
    s.(threads := s.threads[t := th])
  }

  predicate IsWaiting(s: State, t: ThreadId) {
    t in s.threads && s.threads[t].pc.EWaiting?
  }

  ghost predicate Enabled(s: State, a: Action) {
    && a.t in s.threads
    && var pc := s.threads[a.t].pc;
       match a
       case EnterSample(_) => pc.Running?
       case EnterBlock(_) => pc.ESampled? && (s.owner.Some? ==> s.owner.value in s.threads)
       case Resume(_) => pc.EWaiting?
       case EnterWake(_) => pc.EWoken?
       case LeaveCheck(_) => pc.Running?
       case LeaveLoad(_) => pc.LChecked?
       case LeaveStore(_) => pc.LLoaded?
       case LeaveTest(_) => pc.LStored?
       case LeaveBlock(_, waiter) =>
         pc.LLast? && if waiter.Some? then IsWaiting(s, waiter.value) else forall w <- s.threads :: !IsWaiting(s, w)
       case LeaveRestore(_) => pc.LRestoring?
  }

  ghost function Apply(s: State, a: Action): State
    requires Enabled(s, a)
  {
    var t, me := a.t, s.threads[a.t];
    match a
    case EnterSample(_) =>
      Set(s, t, me.(pc := ESampled(me.priority)))
    case EnterBlock(_) =>
      var p := me.pc.callerPriority;
      if s.owner.Some? && s.owner.value != t then
        var o := s.owner.value;
        var owner := s.threads[o];
        var raised := Set(s, o, if p > owner.priority then owner.(priority := p) else owner);
        Set(raised, t, me.(pc := EWaiting(p, me.priority), priority := CEILING_PRIORITY))
      else
        Set(s.(owner := Some(t), ownerPriority := p, ownerEnterCnt := s.ownerEnterCnt + 1),
            t, me.(pc := Running, depth := me.depth + 1, sample := p))
    case Resume(_) =>
      Set(s, t, me.(pc := EWoken(me.pc.callerPriority, me.pc.previous)))
    case EnterWake(_) =>
      var p := me.pc.callerPriority;
      if s.owner.Some? && s.owner.value != t then
        Set(s, t, me.(pc := EWaiting(p, me.pc.previous)))
      else
        Set(s.(owner := Some(t), ownerPriority := p, ownerEnterCnt := 0 + 1),
            t, me.(pc := Running, priority := me.pc.previous, depth := me.depth + 1, sample := p))
    case LeaveCheck(_) =>
      if s.owner != Some(t) then s else Set(s, t, me.(pc := LChecked))
    case LeaveLoad(_) =>
      Set(s, t, me.(pc := LLoaded(s.ownerEnterCnt)))
    case LeaveStore(_) =>
      Set(s.(ownerEnterCnt := me.pc.count - 1), t, me.(pc := LStored, depth := me.depth - 1))
    case LeaveTest(_) =>
      Set(s, t, me.(pc := if s.ownerEnterCnt > 0 then Running else LLast))
    case LeaveBlock(_, waiter) =>
      var released := Set(s.(owner := waiter, ownerPriority := 0), t, me.(pc := LRestoring(s.ownerPriority)));
      if waiter.None? then released
      else
        var w := s.threads[waiter.value];
        Set(released, waiter.value, w.(pc := EWoken(w.pc.callerPriority, w.pc.previous)))
    case LeaveRestore(_) =>
      Set(s, t, me.(pc := Running, priority := me.pc.currentOwnerPriority))
  }

  // ---------------------------------------------------------------- invariant

  /** What holds of a thread other than the owner. */
  ghost predicate BystanderOk(s: State, th: Thread) {
    && th.depth == 0
    && (th.pc.Running? || th.pc.ESampled? || th.pc.EWoken? || th.pc.LRestoring? || (th.pc.EWaiting? && s.owner.Some?))
  }

  /** What holds of the owner: it has been handed the semaphore and has not run yet, or the
      counter is its nesting depth. */
  ghost predicate OwnerOk(s: State, th: Thread) {
    match th.pc
    case EWoken(_, _) => th.depth == 0 && s.ownerEnterCnt == 0
    case Running | ESampled(_) | LChecked => 0 < th.depth == s.ownerEnterCnt
    case LLoaded(c) => 0 < th.depth == s.ownerEnterCnt == c
    case LStored => 0 <= th.depth == s.ownerEnterCnt
    case LLast => th.depth == s.ownerEnterCnt == 0
    case _ => false
  }

  ghost predicate Inv(s: State) {
    && (s.owner.Some? ==> s.owner.value in s.threads)
    && (s.owner.None? ==> s.ownerEnterCnt == 0)
    && (forall t <- s.threads :: if s.owner == Some(t) then OwnerOk(s, s.threads[t]) else BystanderOk(s, s.threads[t]))
  }

  ghost predicate Init(s: State) {
    && s.owner.None? && s.ownerEnterCnt == 0 && s.ownerPriority == 0
    && forall t <- s.threads ::
         var th := s.threads[t];
         th.pc.Running? && th.depth == 0 && th.priority == th.base == th.sample
  }

  lemma InvStep(s: State, a: Action)
    requires Inv(s) && Enabled(s, a)
    ensures Inv(Apply(s, a))
  {
  }

  // ---------------------------------------------------------------- runs

  ghost predicate Legal(s: State, run: seq<Action>)
    decreases |run|
  {
    run == [] || (Enabled(s, run[0]) && Legal(Apply(s, run[0]), run[1..]))
  }

  ghost function After(s: State, run: seq<Action>): State
    requires Legal(s, run)
    decreases |run|
  {
    if run == [] then s else After(Apply(s, run[0]), run[1..])
  }

  lemma {:induction false} InvAfter(s: State, run: seq<Action>)
    requires Inv(s) && Legal(s, run)
    ensures Inv(After(s, run))
    decreases |run|
  {
    if run != [] {
      InvStep(s, run[0]);
      InvAfter(Apply(s, run[0]), run[1..]);
    }
  }

  // ---------------------------------------------------------------- exclusion

  ghost predicate Inside(s: State, t: ThreadId) {
    t in s.threads && 0 < s.threads[t].depth
  }

  /** In every interleaving at most one thread is inside, it is the owner, and whenever it is not
      in the middle of `leave` the counter is its nesting depth; otherwise the counter is 0. */
  lemma MutualExclusion(s: State, run: seq<Action>, t: ThreadId, u: ThreadId)
    requires Init(s) && Legal(s, run)
    ensures var e := After(s, run);
            && (Inside(e, t) ==> e.owner == Some(t))
            && (Inside(e, t) && Inside(e, u) ==> t == u)
            && (Inside(e, t) ==> e.ownerEnterCnt == e.threads[t].depth)
            && ((forall v <- e.threads :: !Inside(e, v)) ==> e.ownerEnterCnt == 0)
  {
    InvAfter(s, run);
  }

  /** A thread that is not inside and calls `leave` changes nothing. */
  lemma LeaveByOutsider(s: State, run: seq<Action>, t: ThreadId)
    requires Init(s) && Legal(s, run)
    requires var e := After(s, run); Enabled(e, LeaveCheck(t)) && !Inside(e, t)
    ensures Apply(After(s, run), LeaveCheck(t)) == After(s, run)
  {
    InvAfter(s, run);
  }

  // ---------------------------------------------------------------- no waiter is lost

  /** Whenever somebody sleeps in `enter`, there is an owner, it is not asleep itself, and it has
      a step to take; whenever there is no owner, nobody sleeps. */
  lemma NoWaiterLost(s: State, run: seq<Action>)
    requires Init(s) && Legal(s, run)
    ensures var e := After(s, run);
            && (e.owner.None? ==> forall w <- e.threads :: !IsWaiting(e, w))
            && (e.owner.Some? ==>
                  && !IsWaiting(e, e.owner.value)
                  && exists a: Action :: a.t == e.owner.value && Enabled(e, a))
  {
    InvAfter(s, run);
    var e := After(s, run);
    if e.owner.Some? {
      var o := e.owner.value;
      var a := OwnStep(e, o);
    }
  }

  /** The next step of a thread that is not asleep. */
  lemma OwnStep(s: State, t: ThreadId) returns (a: Action)
    requires Inv(s) && t in s.threads && !IsWaiting(s, t)
    ensures a.t == t && Enabled(s, a)
  {
    match s.threads[t].pc
    case Running => a := EnterSample(t);
    case ESampled(_) => a := EnterBlock(t);
    case EWoken(_, _) => a := EnterWake(t);
    case LChecked => a := LeaveLoad(t);
    case LLoaded(_) => a := LeaveStore(t);
    case LStored => a := LeaveTest(t);
    case LLast =>
      if w :| w in s.threads && IsWaiting(s, w) {
        a := LeaveBlock(t, Some(w));
      } else {
        a := LeaveBlock(t, None);
      }
    case LRestoring(_) => a := LeaveRestore(t);
  }

  /** Whoever sleeps in `enter`, or has been resumed for another reason than a hand-over, is at the
      ceiling priority; one that the semaphore was handed to at least. */
  ghost predicate CeilingInv(s: State) {
    && Inv(s)
    && forall t <- s.threads ::
         var th := s.threads[t];
         && (th.pc.EWaiting? ==> th.priority == CEILING_PRIORITY)
         && (th.pc.EWoken? ==> if s.owner == Some(t) then th.priority >= CEILING_PRIORITY else th.priority == CEILING_PRIORITY)
  }

  lemma CeilingStep(s: State, a: Action)
    requires CeilingInv(s) && Enabled(s, a)
    ensures CeilingInv(Apply(s, a))
  {
    InvStep(s, a);
  }

  lemma {:induction false} CeilingAfter(s: State, run: seq<Action>)
    requires CeilingInv(s) && Legal(s, run)
    ensures CeilingInv(After(s, run))
    decreases |run|
  {
    if run != [] {
      CeilingStep(s, run[0]);
      CeilingAfter(Apply(s, run[0]), run[1..]);
    }
  }

  /** The scheduler's list of threads as `leave` finds it: `ids[i]` is entry `i`. A thread's
      `waitingFor` names the semaphore exactly while it sleeps in `enter`; the idle thread is none of
      its users and below the ceiling. */
  ghost predicate Lists(s: State, list: seq<Scheduling.ThreadState>, ids: seq<ThreadId>, idle: nat, signaler: int) {
    && idle < |list| == |ids|
    && list[idle].priority < CEILING_PRIORITY && list[idle].waitingFor != signaler
    && (forall i :: 0 <= i < |list| ==> (list[i].waitingFor == signaler <==> IsWaiting(s, ids[i])))
    && (forall i :: 0 <= i < |list| && IsWaiting(s, ids[i]) ==> list[i].priority == s.threads[ids[i]].priority)
    && (forall w <- s.threads :: IsWaiting(s, w) ==> exists i :: 0 <= i < |ids| && ids[i] == w)
  }

  /** The thread `findNextWaitingFor` found, if any. */
  function Found(ids: seq<ThreadId>, r: Option<nat>): Option<ThreadId>
    requires r.Some? ==> r.value < |ids|
  {
    if r.Some? then Some(ids[r.value]) else None
  }

  /** The choice the program makes is one of those the machine allows, and it finds somebody exactly
      if somebody waits; so the last `leave` passes the semaphore on as soon as anybody waits for it. */
  lemma LeaveHandsOver(s: State, run: seq<Action>, t: ThreadId,
                       list: seq<Scheduling.ThreadState>, ids: seq<ThreadId>, idle: nat, signaler: int, r: Option<nat>)
    requires Init(s) && Legal(s, run)
    requires var e := After(s, run);
             && t in e.threads && e.threads[t].pc.LLast?
             && Lists(e, list, ids, idle, signaler) && Scheduling.IsNextWaiter(list, idle, signaler, r)
    ensures var e := After(s, run);
            && (r.Some? <==> exists w <- e.threads :: IsWaiting(e, w))
            && (r.Some? ==> r.value < |ids|)
            && Enabled(e, LeaveBlock(t, Found(ids, r)))
            && var n := Apply(e, LeaveBlock(t, Found(ids, r)));
               && n.owner == Found(ids, r)
               && (r.Some? ==> IsWaiting(e, ids[r.value]) && ids[r.value] in n.threads && n.threads[ids[r.value]].pc.EWoken?)
  {
    CeilingAfter(s, run);
    var e := After(s, run);
    if w :| w in e.threads && IsWaiting(e, w) {
      var i :| 0 <= i < |ids| && ids[i] == w;
      assert list[i].priority == CEILING_PRIORITY;
      assert list[i].Before(list[idle]);
    }
  }

  /** Once handed over, the semaphore is the new owner's: nobody else's step takes it away, and
      its own next step brings it inside. */
  lemma NoBarging(s: State, run: seq<Action>, w: ThreadId, a: Action)
    requires Init(s) && Legal(s, run)
    requires var e := After(s, run); w in e.threads && e.owner == Some(w) && e.threads[w].pc.EWoken? && Enabled(e, a)
    ensures var n := Apply(After(s, run), a);
            && n.owner == Some(w)
            && (if a.t == w then Inside(n, w) && n.ownerEnterCnt == 1 else n.threads[w].pc.EWoken? && !Inside(n, a.t))
  {
    InvAfter(s, run);
  }

  // ---------------------------------------------------------------- priorities

  /** Nobody re-enters: `enter` is called from outside only. */
  ghost predicate NonReentrant(s: State, run: seq<Action>)
    requires Legal(s, run)
    decreases |run|
  {
    run == [] ||
    ((run[0].EnterSample? ==> s.threads[run[0].t].depth == 0) && NonReentrant(Apply(s, run[0]), run[1..]))
  }

  /** The priority a thread has or will be given back is its own. */
  ghost predicate PriorityOk(s: State, t: ThreadId)
    requires t in s.threads
  {
    var th := s.threads[t];
    match th.pc
    case EWaiting(p, previous) => p == th.base && previous == th.base
    case EWoken(p, previous) => p == th.base && previous == th.base
    case LRestoring(saved) => saved == th.base
    case _ =>
      if s.owner == Some(t) then s.ownerPriority == th.base && th.priority >= th.base && !th.pc.ESampled?
      else th.priority == th.base && (th.pc.ESampled? ==> th.pc.callerPriority == th.base)
  }

  ghost predicate PriorityInv(s: State) {
    Inv(s) && forall t <- s.threads :: PriorityOk(s, t)
  }

  lemma PriorityEnter(s: State, a: Action, t: ThreadId)
    requires Inv(s) && Enabled(s, a) && t in s.threads && PriorityOk(s, t) && PriorityOk(s, a.t)
    requires a.EnterBlock? || a.EnterWake? || (a.EnterSample? && s.threads[a.t].depth == 0)
    ensures PriorityOk(Apply(s, a), t)
  {
  }

  lemma PriorityLeave(s: State, a: Action, t: ThreadId)
    requires Inv(s) && Enabled(s, a) && t in s.threads && PriorityOk(s, t) && PriorityOk(s, a.t)
    requires !a.EnterBlock? && !a.EnterWake? && !a.EnterSample?
    ensures PriorityOk(Apply(s, a), t)
  {
  }

  lemma PriorityStep(s: State, a: Action)
    requires PriorityInv(s) && Enabled(s, a)
    requires a.EnterSample? ==> s.threads[a.t].depth == 0
    ensures PriorityInv(Apply(s, a))
  {
    InvStep(s, a);
    forall t | t in s.threads ensures PriorityOk(Apply(s, a), t) {
      if a.EnterBlock? || a.EnterWake? || a.EnterSample? {
        PriorityEnter(s, a, t);
      } else {
        PriorityLeave(s, a, t);
      }
    }
  }

  lemma {:induction false} PriorityAfter(s: State, run: seq<Action>)
    requires PriorityInv(s) && Legal(s, run) && NonReentrant(s, run)
    ensures PriorityInv(After(s, run))
    decreases |run|
  {
    if run != [] {
      PriorityStep(s, run[0]);
      PriorityAfter(Apply(s, run[0]), run[1..]);
    }
  }

  /** Used without re-entry, the semaphore leaves every thread outside with exactly its own
      priority, and an owner with at least its own. */
  lemma PriorityRestored(s: State, run: seq<Action>, t: ThreadId)
    requires Init(s) && Legal(s, run) && NonReentrant(s, run) && t in After(s, run).threads
    ensures var th := After(s, run).threads[t];
            th.pc.Running? ==> if th.depth == 0 then th.priority == th.base else th.priority >= th.base
  {
    PriorityAfter(s, run);
    assert PriorityOk(After(s, run), t);
    InvAfter(s, run);
  }

  /** While a thread owns the semaphore and is not on its way out of `enter`, the steps of others
      only ever raise its priority, and a caller that has to wait lifts it to its own. */
  lemma OthersOnlyRaise(s: State, a: Action, o: ThreadId)
    requires Inv(s) && Enabled(s, a) && s.owner == Some(o) && a.t != o
    ensures var n := Apply(s, a);
            && n.owner == Some(o)
            && n.threads[o].priority >= s.threads[o].priority
            && (a.EnterBlock? ==> n.threads[o].priority >= s.threads[a.t].pc.callerPriority)
  {
  }

  /** The owner, once it runs inside, has at least the priority of everybody who sleeps. */
  ghost predicate Inherits(s: State) {
    s.owner.Some? && s.owner.value in s.threads && !s.threads[s.owner.value].pc.EWoken? ==>
      forall x <- s.threads :: s.threads[x].pc.EWaiting? ==>
        s.threads[s.owner.value].priority >= s.threads[x].pc.callerPriority
  }

  /** A thread that wakes as the owner goes back to the priority it had when it fell asleep, and one
      that was resumed for another reason sleeps on without raising anybody. */
  ghost predicate KeepsInheritance(s: State, a: Action)
    requires Enabled(s, a)
  {
    a.EnterWake? ==>
      var pc := s.threads[a.t].pc;
      if s.owner.Some? && s.owner.value != a.t then
        s.owner.value in s.threads ==>
          s.threads[s.owner.value].pc.EWoken? || s.threads[s.owner.value].priority >= pc.callerPriority
      else
        forall x <- s.threads :: x != a.t && s.threads[x].pc.EWaiting? ==> s.threads[x].pc.callerPriority <= pc.previous
  }

  /** Only waking up can lose the inherited priority, and exactly in these cases. */
  lemma InheritanceStep(s: State, a: Action)
    requires Inv(s) && Inherits(s) && Enabled(s, a)
    ensures Inherits(Apply(s, a)) <==> KeepsInheritance(s, a)
  {
    InvStep(s, a);
  }

  ghost predicate InheritsThroughout(s: State, run: seq<Action>)
    requires Legal(s, run)
    decreases |run|
  {
    Inherits(s) && (run == [] || InheritsThroughout(Apply(s, run[0]), run[1..]))
  }

  ghost predicate AllKeepInheritance(s: State, run: seq<Action>)
    requires Legal(s, run)
    decreases |run|
  {
    run == [] || (KeepsInheritance(s, run[0]) && AllKeepInheritance(Apply(s, run[0]), run[1..]))
  }

  /** Over every run, priority inheritance holds at every moment if and only if no wake-up loses it. */
  lemma {:induction false} InheritsIff(s: State, run: seq<Action>)
    requires Inv(s) && Inherits(s) && Legal(s, run)
    ensures InheritsThroughout(s, run) <==> AllKeepInheritance(s, run)
    decreases |run|
  {
    if run != [] {
      InvStep(s, run[0]);
      InheritanceStep(s, run[0]);
      if KeepsInheritance(s, run[0]) {
        InheritsIff(Apply(s, run[0]), run[1..]);
      }
    }
  }

  predicate OwnerInside(s: State) {
    s.owner.Some? && s.owner.value in s.threads && !s.threads[s.owner.value].pc.EWoken?
  }

  /** What any run, re-entrant or not, keeps: the priority recorded in the semaphore is the one its
      owner sampled last, or 0 until a new owner has run. */
  ghost predicate SampleInv(s: State) {
    && Inv(s) && (!OwnerInside(s) ==> s.ownerPriority == 0)
    && (forall t <- s.threads :: s.owner == Some(t) && !s.threads[t].pc.EWoken? ==> s.ownerPriority == s.threads[t].sample)
    && (forall t <- s.threads :: s.threads[t].pc.LRestoring? ==> s.threads[t].pc.currentOwnerPriority == s.threads[t].sample)
  }

  lemma SampleStep(s: State, a: Action)
    requires SampleInv(s) && Enabled(s, a)
    ensures SampleInv(Apply(s, a))
  {
    InvStep(s, a);
  }

  lemma {:induction false} SampleAfter(s: State, run: seq<Action>)
    requires SampleInv(s) && Legal(s, run)
    ensures SampleInv(After(s, run))
    decreases |run|
  {
    if run != [] {
      SampleStep(s, run[0]);
      SampleAfter(Apply(s, run[0]), run[1..]);
    }
  }

  /** In any run a thread gets its own priority back exactly when that is what its last `enter`,
      nested or not, found. */
  lemma RestoredIffSampled(s: State, run: seq<Action>, t: ThreadId)
    requires Init(s) && Legal(s, run) && Enabled(After(s, run), LeaveRestore(t))
    ensures var e := After(s, run); var th := Apply(e, LeaveRestore(t)).threads[t];
            th.depth == 0 && (th.priority == th.base <==> th.sample == th.base)
  {
    SampleAfter(s, run);
  }

  /** By which a leaving thread can tell whether the thread it handed over to has still to run: the recorded
      priority is 0 then, and otherwise the one that thread found on entering. */
  lemma OwnerPriorityTells(s: State, run: seq<Action>)
    requires Init(s) && Legal(s, run)
    ensures var e := After(s, run);
            e.ownerPriority == if OwnerInside(e) then e.threads[e.owner.value].sample else 0
  {
    SampleAfter(s, run);
  }

  lemma Extend(s: State, run: seq<Action>, a: Action)
    requires Legal(s, run) && Enabled(After(s, run), a)
    ensures Legal(s, run + [a]) && After(s, run + [a]) == Apply(After(s, run), a)
    decreases |run|
  {
    if run == [] {
      assert run + [a] == [a] && [a][1..] == [];
    } else {
      Extend(Apply(s, run[0]), run[1..], a);
      assert (run + [a])[1..] == run[1..] + [a];
    }
  }

  /** A whole `leave` of a thread that is inside, nobody else moving. */
  lemma LeaveOnce(s: State, run: seq<Action>, t: ThreadId) returns (longer: seq<Action>)
    requires Legal(s, run)
    requires var e := After(s, run);
             t in e.threads && e.owner == Some(t) && e.threads[t].pc.Running?
    ensures Legal(s, longer)
    ensures var e, n := After(s, run), After(s, longer);
            n == Set(e.(ownerEnterCnt := e.ownerEnterCnt - 1), t,
                     e.threads[t].(pc := if e.ownerEnterCnt > 1 then Running else LLast, depth := e.threads[t].depth - 1))
  {
    longer := run;
    Extend(s, longer, LeaveCheck(t));
    longer := longer + [LeaveCheck(t)];
    Extend(s, longer, LeaveLoad(t));
    longer := longer + [LeaveLoad(t)];
    Extend(s, longer, LeaveStore(t));
    longer := longer + [LeaveStore(t)];
    Extend(s, longer, LeaveTest(t));
    longer := longer + [LeaveTest(t)];
  }

  /** Thread 1 enters, thread 2 of priority 5 waits and raises it, thread 1 enters again. */
  lemma RaisedThenReentered() returns (s: State, run: seq<Action>)
    ensures Init(s) && Legal(s, run)
    ensures After(s, run) == State(Some(1), 2, 5, map[1 := Thread(Running, 5, 1, 2, 5),
                                                      2 := Thread(EWaiting(5, 5), CEILING_PRIORITY, 5, 0, 5)])
  {
    s := State(None, 0, 0, map[1 := Thread(Running, 1, 1, 0, 1), 2 := Thread(Running, 5, 5, 0, 5)]);
    run := [];
    Extend(s, run, EnterSample(1));
    run := run + [EnterSample(1)];
    Extend(s, run, EnterBlock(1));
    run := run + [EnterBlock(1)];
    Extend(s, run, EnterSample(2));
    run := run + [EnterSample(2)];
    Extend(s, run, EnterBlock(2));
    run := run + [EnterBlock(2)];
    assert After(s, run).threads[1] == Thread(Running, 5, 1, 1, 1);
    Extend(s, run, EnterSample(1));
    run := run + [EnterSample(1)];
    Extend(s, run, EnterBlock(1));
    run := run + [EnterBlock(1)];
  }

  /** With re-entry a raised priority can outlast the semaphore: in that run thread 1 records 5 as its
      own priority, and has it after leaving twice. */
  lemma ReentryKeepsRaisedPriority() returns (s: State, run: seq<Action>)
    ensures Init(s) && Legal(s, run)
    ensures 1 in After(s, run).threads
    ensures var th := After(s, run).threads[1];
            th.pc.Running? && th.depth == 0 && th.base == 1 && th.priority == 5
  {
    s, run := RaisedThenReentered();
    run := LeaveOnce(s, run, 1);
    run := LeaveOnce(s, run, 1);
    assert IsWaiting(After(s, run), 2);
    Extend(s, run, LeaveBlock(1, Some(2)));
    run := run + [LeaveBlock(1, Some(2))];
    Extend(s, run, LeaveRestore(1));
    run := run + [LeaveRestore(1)];
  }
}
