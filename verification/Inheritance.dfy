/** When the semaphore keeps priority inheritance in every run, told from the priorities of the threads
    that may have to wait for it. */
module Inheritance {
  import opened Common
  import opened Semaphore

  // ---------------------------------------------------------------- who may wait

  /** Only threads of `waiters` ever find the semaphore taken; others than the semaphore resume them only
      if `foreign`; and if `prompt`, a thread that was handed the semaphore runs before others go on in
      `enter` or `leave`, as it does when it is at the ceiling priority and nobody is above. */
  datatype Use = Use(waiters: set<ThreadId>, foreign: bool, prompt: bool)

  predicate OwnerWoken(s: State) {
    s.owner.Some? && s.owner.value in s.threads && s.threads[s.owner.value].pc.EWoken?
  }

  ghost predicate Allowed(s: State, a: Action, u: Use) {
    && (a.EnterBlock? && s.owner.Some? && s.owner.value != a.t ==> a.t in u.waiters)
    && (a.Resume? ==> u.foreign)
    && (u.prompt && OwnerWoken(s) ==> a.EnterWake? || a.LeaveRestore? || a.Resume?)
  }

  ghost predicate Disciplined(s: State, run: seq<Action>, u: Use)
    requires Legal(s, run)
    decreases |run|
  {
    run == [] || (Allowed(s, run[0], u) && Disciplined(Apply(s, run[0]), run[1..], u))
  }

  /** Two threads can sleep one above the other, or a resumed one above the owner. */
  predicate Mixes(s: State, u: Use) {
    u.foreign || !u.prompt || |s.threads| > 2
  }

  /** All who may wait have the same priority, unless there is nobody else; with foreign resumes, nobody
      at all has a lower one. */
  predicate SafeWaiters(s: State, u: Use) {
    Mixes(s, u) ==>
      forall w, t :: w in u.waiters && w in s.threads && t in s.threads && (u.foreign || t in u.waiters) ==>
        s.threads[t].base >= s.threads[w].base
  }

  // ---------------------------------------------------------------- priorities that are kept

  /** The priorities thread `t` has while it is awake, has recorded, or will be given back. */
  ghost predicate AtLeast(s: State, t: ThreadId, b: int)
    requires t in s.threads
  {
    var th := s.threads[t];
    && (s.owner == Some(t) && !th.pc.EWoken? ==> s.ownerPriority >= b)
    && match th.pc
       case EWaiting(p, previous) => p >= b && previous >= b
       case EWoken(p, previous) => p >= b && previous >= b
       case LRestoring(saved) => saved >= b
       case ESampled(p) => p >= b && th.priority >= b
       case _ => th.priority >= b
  }

  ghost predicate AtMost(s: State, t: ThreadId, b: int)
    requires t in s.threads
  {
    var th := s.threads[t];
    && (s.owner == Some(t) && !th.pc.EWoken? ==> s.ownerPriority <= b)
    && match th.pc
       case EWaiting(p, previous) => p <= b && previous <= b
       case EWoken(p, previous) => p <= b && previous <= b
       case LRestoring(saved) => saved <= b
       case ESampled(p) => p <= b && th.priority <= b
       case _ => th.priority <= b
  }

  lemma AtLeastStep(s: State, a: Action, t: ThreadId, b: int)
    requires Inv(s) && Enabled(s, a) && t in s.threads && AtLeast(s, t, b)
    ensures AtLeast(Apply(s, a), t, b)
  {
  }

  lemma AtMostStep(s: State, a: Action, t: ThreadId, b: int)
    requires Inv(s) && Enabled(s, a) && t in s.threads && AtMost(s, t, b)
    requires a.EnterBlock? && a.t != t && s.owner == Some(t) ==> s.threads[a.t].pc.callerPriority <= b
    ensures AtMost(Apply(s, a), t, b)
  {
  }

  predicate Asleep(th: Thread) {
    th.pc.EWaiting? || th.pc.EWoken?
  }

  ghost predicate SleepersOk(s: State, u: Use) {
    && (forall t <- s.threads :: Asleep(s.threads[t]) ==>
          t in u.waiters && (s.threads[t].pc.EWoken? && !u.foreign ==> s.owner == Some(t)))
    && (!Mixes(s, u) && OwnerWoken(s) ==> forall t <- s.threads :: !s.threads[t].pc.EWaiting?)
  }

  ghost predicate BoundsOk(s: State, u: Use) {
    && (forall t <- s.threads :: t in u.waiters ==> AtLeast(s, t, s.threads[t].base) && AtMost(s, t, s.threads[t].base))
    && (u.foreign ==> forall t, w :: t in s.threads && w in s.threads && w in u.waiters ==> AtLeast(s, t, s.threads[w].base))
  }

  ghost predicate WaiterInv(s: State, u: Use) {
    Inv(s) && Inherits(s) && SafeWaiters(s, u) && SleepersOk(s, u) && (Mixes(s, u) ==> BoundsOk(s, u))
  }

  lemma SameThreads(s: State, a: Action)
    requires Inv(s) && Enabled(s, a)
    ensures Apply(s, a).threads.Keys == s.threads.Keys
    ensures forall t <- s.threads :: Apply(s, a).threads[t].base == s.threads[t].base
    ensures |Apply(s, a).threads| == |s.threads|
  {
    assert |s.threads| == |s.threads.Keys| && |Apply(s, a).threads| == |Apply(s, a).threads.Keys|;
  }

  lemma WaiterStepKeeps(s: State, a: Action, u: Use)
    requires WaiterInv(s, u) && Enabled(s, a) && Allowed(s, a, u)
    ensures KeepsInheritance(s, a)
  {
    if a.EnterWake? && Mixes(s, u) {
      var t := a.t;
      assert AtLeast(s, t, s.threads[t].base) && AtMost(s, t, s.threads[t].base);
      if s.owner.Some? && s.owner.value != t {
        assert AtLeast(s, s.owner.value, s.threads[t].base);
      } else {
        forall x | x in s.threads && s.threads[x].pc.EWaiting?
          ensures s.threads[x].pc.callerPriority <= s.threads[t].pc.previous
        {
          assert AtMost(s, x, s.threads[x].base);
        }
      }
    }
  }

  lemma WaiterStepBounds(s: State, a: Action, u: Use)
    requires WaiterInv(s, u) && Enabled(s, a) && Allowed(s, a, u) && Mixes(s, u)
    ensures BoundsOk(Apply(s, a), u)
  {
    SameThreads(s, a);
    forall t | t in s.threads && t in u.waiters
      ensures AtLeast(Apply(s, a), t, s.threads[t].base) && AtMost(Apply(s, a), t, s.threads[t].base)
    {
      AtLeastStep(s, a, t, s.threads[t].base);
      if a.EnterBlock? && a.t != t && s.owner == Some(t) {
        assert AtMost(s, a.t, s.threads[a.t].base);
      }
      AtMostStep(s, a, t, s.threads[t].base);
    }
    if u.foreign {
      forall t, w | t in s.threads && w in s.threads && w in u.waiters ensures AtLeast(Apply(s, a), t, s.threads[w].base) {
        AtLeastStep(s, a, t, s.threads[w].base);
      }
    }
  }

  lemma ThreeOf(s: State, x: ThreadId, y: ThreadId, z: ThreadId)
    requires x in s.threads && y in s.threads && z in s.threads && x != y && x != z && y != z
    ensures |s.threads| > 2
  {
    SubsetSize({x, y, z}, s.threads.Keys);
    assert |s.threads| == |s.threads.Keys|;
  }

  lemma SleeperStep(s: State, a: Action, u: Use, t: ThreadId)
    requires WaiterInv(s, u) && Enabled(s, a) && Allowed(s, a, u) && t in s.threads
    ensures var n := Apply(s, a);
            Asleep(n.threads[t]) ==> t in u.waiters && (n.threads[t].pc.EWoken? && !u.foreign ==> n.owner == Some(t))
  {
  }

  /** With two threads, nobody is left asleep when the semaphore is handed over, and a prompt owner runs
      before the other comes back. */
  lemma NobodyLeftAsleep(s: State, a: Action, u: Use, t: ThreadId)
    requires WaiterInv(s, u) && Enabled(s, a) && Allowed(s, a, u) && t in s.threads
    requires !Mixes(s, u) && OwnerWoken(Apply(s, a))
    ensures !Apply(s, a).threads[t].pc.EWaiting?
  {
    if a.LeaveBlock? && Apply(s, a).threads[t].pc.EWaiting? {
      ThreeOf(s, a.t, t, a.waiter.value);
    }
  }

  lemma WaiterStepSleepers(s: State, a: Action, u: Use)
    requires WaiterInv(s, u) && Enabled(s, a) && Allowed(s, a, u)
    ensures SleepersOk(Apply(s, a), u)
  {
    var n := Apply(s, a);
    SameThreads(s, a);
    forall t | t in n.threads
      ensures Asleep(n.threads[t]) ==> t in u.waiters && (n.threads[t].pc.EWoken? && !u.foreign ==> n.owner == Some(t))
    {
      SleeperStep(s, a, u, t);
    }
    if !Mixes(s, u) && OwnerWoken(n) {
      forall t | t in n.threads ensures !n.threads[t].pc.EWaiting? {
        NobodyLeftAsleep(s, a, u, t);
      }
    }
  }

  lemma WaiterStep(s: State, a: Action, u: Use)
    requires WaiterInv(s, u) && Enabled(s, a) && Allowed(s, a, u)
    ensures WaiterInv(Apply(s, a), u)
  {
    SameThreads(s, a);
    InvStep(s, a);
    WaiterStepKeeps(s, a, u);
    InheritanceStep(s, a);
    WaiterStepSleepers(s, a, u);
    if Mixes(s, u) {
      WaiterStepBounds(s, a, u);
    }
  }

  lemma {:induction false} WaiterAfter(s: State, run: seq<Action>, u: Use)
    requires WaiterInv(s, u) && Legal(s, run) && Disciplined(s, run, u)
    ensures WaiterInv(After(s, run), u)
    decreases |run|
  {
    if run != [] {
      WaiterStep(s, run[0], u);
      WaiterAfter(Apply(s, run[0]), run[1..], u);
    }
  }

  // ---------------------------------------------------------------- runs that lose inheritance

  lemma Go(s: State, run: seq<Action>, u: Use, a: Action) returns (longer: seq<Action>)
    requires Legal(s, run) && Disciplined(s, run, u)
    requires Enabled(After(s, run), a) && Allowed(After(s, run), a, u)
    ensures Legal(s, longer) && Disciplined(s, longer, u)
    ensures After(s, longer) == Apply(After(s, run), a)
    decreases |run|
  {
    longer := run + [a];
    if run == [] {
      assert longer == [a] && [a][1..] == [];
    } else {
      var rest := Go(Apply(s, run[0]), run[1..], u, a);
      longer := [run[0]] + rest;
      assert longer[1..] == rest;
    }
  }

  /** A thread outside takes the free semaphore. */
  lemma Take(s: State, run: seq<Action>, u: Use, t: ThreadId) returns (longer: seq<Action>)
    requires Legal(s, run) && Disciplined(s, run, u)
    requires var e := After(s, run);
             t in e.threads && e.threads[t].pc.Running? && e.threads[t].depth == 0 && e.owner.None? && e.ownerEnterCnt == 0
    ensures Legal(s, longer) && Disciplined(s, longer, u)
    ensures var e := After(s, run); var th := e.threads[t];
            After(s, longer) == State(Some(t), 1, th.priority, e.threads[t := th.(depth := 1, sample := th.priority)])
  {
    longer := Go(s, run, u, EnterSample(t));
    longer := Go(s, longer, u, EnterBlock(t));
  }

  /** A thread outside finds it taken. */
  lemma Wait(s: State, run: seq<Action>, u: Use, t: ThreadId) returns (longer: seq<Action>)
    requires Legal(s, run) && Disciplined(s, run, u) && t in u.waiters
    requires var e := After(s, run);
             && t in e.threads && e.threads[t].pc.Running? && e.owner.Some? && e.owner.value in e.threads && e.owner.value != t
             && !(u.prompt && OwnerWoken(e))
    ensures Legal(s, longer) && Disciplined(s, longer, u)
    ensures var e := After(s, run); var th, o := e.threads[t], e.owner.value; var owner := e.threads[o];
            After(s, longer) == e.(threads := e.threads[o := owner.(priority := Max(owner.priority, th.priority))]
                                              [t := th.(pc := EWaiting(th.priority, th.priority), priority := CEILING_PRIORITY)])
  {
    longer := Go(s, run, u, EnterSample(t));
    longer := Go(s, longer, u, EnterBlock(t));
  }

  /** A thread inside begins to leave, up to where it has read the counter, */
  lemma LoadCount(s: State, run: seq<Action>, u: Use, t: ThreadId) returns (longer: seq<Action>)
    requires Legal(s, run) && Disciplined(s, run, u)
    requires var e := After(s, run);
             t in e.threads && e.threads[t].pc.Running? && e.owner == Some(t) && e.ownerEnterCnt == 1
    ensures Legal(s, longer) && Disciplined(s, longer, u)
    ensures var e := After(s, run); After(s, longer) == Set(e, t, e.threads[t].(pc := LLoaded(1)))
  {
    longer := Go(s, run, u, LeaveCheck(t));
    longer := Go(s, longer, u, LeaveLoad(t));
  }

  /** ... and goes on to find it to be 0. */
  lemma CountDown(s: State, run: seq<Action>, u: Use, t: ThreadId) returns (longer: seq<Action>)
    requires Legal(s, run) && Disciplined(s, run, u)
    requires var e := After(s, run);
             && t in e.threads && e.threads[t].pc.Running? && e.threads[t].depth == 1
             && e.owner == Some(t) && e.ownerEnterCnt == 1
    ensures Legal(s, longer) && Disciplined(s, longer, u)
    ensures var e := After(s, run);
            After(s, longer) == e.(ownerEnterCnt := 0, threads := e.threads[t := e.threads[t].(pc := LLast, depth := 0)])
  {
    longer := LoadCount(s, run, u, t);
    longer := Go(s, longer, u, LeaveStore(t));
    longer := Go(s, longer, u, LeaveTest(t));
  }

  /** A thread inside leaves, and gets the recorded priority back. */
  lemma Leave(s: State, run: seq<Action>, u: Use, t: ThreadId, waiter: Option<ThreadId>)
    returns (longer: seq<Action>)
    requires Legal(s, run) && Disciplined(s, run, u)
    requires var e := After(s, run);
             && t in e.threads && e.threads[t].pc.Running? && e.threads[t].depth == 1
             && e.owner == Some(t) && e.ownerEnterCnt == 1
             && if waiter.Some? then IsWaiting(e, waiter.value) else forall w <- e.threads :: !IsWaiting(e, w)
    ensures Legal(s, longer) && Disciplined(s, longer, u)
    ensures var e := After(s, run); var th := e.threads[t];
            var rest := e.threads[t := th.(pc := Running, depth := 0, priority := e.ownerPriority)];
            After(s, longer) ==
              State(waiter, 0, 0,
                    if waiter.None? then rest
                    else var w := rest[waiter.value];
                         rest[waiter.value := w.(pc := EWoken(w.pc.callerPriority, w.pc.previous))])
  {
    longer := CountDown(s, run, u, t);
    longer := Go(s, longer, u, LeaveBlock(t, waiter));
    longer := Go(s, longer, u, LeaveRestore(t));
  }

  /** Two waiters of different priorities: the lower one is first in the list, is handed the semaphore,
      and wakes up at its own priority while the other sleeps on. */
  lemma LowWakesBeforeHigh(s: State, u: Use, low: ThreadId, high: ThreadId, first: ThreadId) returns (run: seq<Action>)
    requires Init(s) && low in s.threads && high in s.threads && low in u.waiters && high in u.waiters
    requires first in s.threads && first != low && first != high
    requires s.threads[low].base < s.threads[high].base
    ensures Legal(s, run) && Disciplined(s, run, u) && !Inherits(After(s, run))
  {
    var p, q := s.threads[low].base, s.threads[high].base;
    run := Take(s, [], u, first);
    run := Wait(s, run, u, low);
    run := Wait(s, run, u, high);
    assert After(s, run).threads[low].pc == EWaiting(p, p) && After(s, run).threads[high].pc == EWaiting(q, q);
    run := Leave(s, run, u, first, Some(low));
    assert After(s, run).threads[low].pc == EWoken(p, p) && After(s, run).threads[high].pc == EWaiting(q, q);
    run := Go(s, run, u, EnterWake(low));
    assert After(s, run).threads[low].priority == p && After(s, run).owner == Some(low);
    assert After(s, run).threads[high].pc == EWaiting(q, q);
  }

  /** Without a third thread: the low one is handed the semaphore by the high one, which comes back
      before the low one runs. */
  lemma HighReturnsBeforeLow(s: State, u: Use, low: ThreadId, high: ThreadId) returns (run: seq<Action>)
    requires Init(s) && low in s.threads && high in s.threads && low in u.waiters && high in u.waiters && !u.prompt
    requires s.threads[low].base < s.threads[high].base
    ensures Legal(s, run) && Disciplined(s, run, u) && !Inherits(After(s, run))
  {
    var p, q := s.threads[low].base, s.threads[high].base;
    run := Take(s, [], u, high);
    run := Wait(s, run, u, low);
    run := Leave(s, run, u, high, Some(low));
    assert After(s, run).threads[low].pc == EWoken(p, p) && After(s, run).threads[high].priority == q;
    run := Wait(s, run, u, high);
    assert After(s, run).threads[high].pc == EWaiting(q, q);
    run := Go(s, run, u, EnterWake(low));
    assert After(s, run).threads[low].priority == p && After(s, run).owner == Some(low);
    assert After(s, run).threads[high].pc == EWaiting(q, q);
  }

  /** A waiter resumed by somebody else sleeps on, and in between its owner has left, got its own priority
      back and entered again. */
  lemma SleepsOnAboveOwner(s: State, u: Use, low: ThreadId, high: ThreadId) returns (run: seq<Action>)
    requires Init(s) && low in s.threads && high in s.threads && high in u.waiters && u.foreign
    requires s.threads[low].base < s.threads[high].base
    ensures Legal(s, run) && Disciplined(s, run, u) && !Inherits(After(s, run))
  {
    var p, q := s.threads[low].base, s.threads[high].base;
    run := Take(s, [], u, low);
    run := Wait(s, run, u, high);
    run := Go(s, run, u, Resume(high));
    assert After(s, run).threads[high].pc == EWoken(q, q);
    run := Leave(s, run, u, low, None);
    assert After(s, run).threads[high].pc == EWoken(q, q) && After(s, run).threads[low].priority == p;
    run := Take(s, run, u, low);
    run := Go(s, run, u, EnterWake(high));
    assert After(s, run).threads[high].pc == EWaiting(q, q);
    assert After(s, run).threads[low].priority == p && After(s, run).owner == Some(low);
  }

  lemma ThirdOf(s: State, x: ThreadId, y: ThreadId) returns (z: ThreadId)
    requires |s.threads| > 2
    ensures z in s.threads && z != x && z != y
  {
    assert |s.threads| == |s.threads.Keys|;
    if forall t <- s.threads :: t == x || t == y {
      SubsetSize(s.threads.Keys, {x, y});
      assert false;
    }
    z :| z in s.threads && z != x && z != y;
  }

  lemma LosingRun(s: State, u: Use) returns (run: seq<Action>)
    requires Init(s) && !SafeWaiters(s, u)
    ensures Legal(s, run) && Disciplined(s, run, u) && !Inherits(After(s, run))
  {
    var high, low :| high in u.waiters && high in s.threads && low in s.threads && (u.foreign || low in u.waiters)
      && s.threads[low].base < s.threads[high].base;
    if u.foreign {
      run := SleepsOnAboveOwner(s, u, low, high);
    } else if u.prompt {
      var first := ThirdOf(s, low, high);
      run := LowWakesBeforeHigh(s, u, low, high, first);
    } else {
      run := HighReturnsBeforeLow(s, u, low, high);
    }
  }

  /** Whatever the threads do, the running owner has at least the priority of every sleeper at every
      moment of every run if and only if all who may wait have the same priority (or there are but two
      threads, and a hand-over is prompt) and, where others resume them too, nobody's is lower. */
  lemma InheritsInEveryRunIff(s: State, u: Use)
    requires Init(s)
    ensures (forall run :: Legal(s, run) && Disciplined(s, run, u) ==> Inherits(After(s, run))) <==> SafeWaiters(s, u)
  {
    if SafeWaiters(s, u) {
      forall run | Legal(s, run) && Disciplined(s, run, u) ensures Inherits(After(s, run)) {
        WaiterAfter(s, run, u);
      }
    } else {
      var run := LosingRun(s, u);
    }
  }
}
