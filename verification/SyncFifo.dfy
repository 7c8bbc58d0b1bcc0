/** The plain and the blocking fifo between one writer and one reader, as a machine of atomic steps.

    A priority-ceiling block is one step up to the point where the thread suspends itself; outside
    such a block every access to an index or a cell is a step of its own.  The plain `put` and `get`,
    the `put` of `putGeneric` and the retries after a suspension are therefore interleaved cell by
    cell. */
module SyncFifos {
  import opened Common
  import opened Rings

  /** How long a caller is willing to wait. */
  datatype Timeout = NoWait | Forever | For(positive: bool)

  datatype WriterPc =
    | WIdle
    | WSuspended(val: int, timeout: Timeout)
    | WWoken(val: int, timeout: Timeout)
    | WTry(val: int, plain: bool)      // about to compare the indices; a plain put resumes nobody
    | WStore(val: int, plain: bool)    // has found room
    | WAdvance(val: int, plain: bool)  // has stored the element
    | WResume                  // put succeeded; the reader may have to be resumed

  datatype ReaderPc =
    | RIdle
    | RSuspended(timeout: Timeout)
    | RWoken(timeout: Timeout)
    | RTry(plain: bool)
    | RLoad(plain: bool)
    | RAdvance(val: int, plain: bool)
    | RResume

  /** `puts` and `gets` are the elements put and got so far, in order. */
  datatype State = State(
    cells: seq<int>, writeX: nat, readX: nat,
    suspendedWriter: bool, suspendedReader: bool,
    wpc: WriterPc, rpc: ReaderPc,
    puts: seq<int>, gets: seq<int>)

  datatype Action =
    | SyncPut(val: int, timeout: Timeout)  // the block at its beginning
    | PutGeneric(val: int)
    | Put(val: int)                        // the plain one
    | WakeWriter                           // a timeout, or a resume from anywhere
    | ContinuePut
    | TestPut | StorePut | AdvancePut
    | ResumeReader
    | SyncGet(timeout: Timeout)
    | Get
    | WakeReader
    | ContinueGet
    | TestGet | LoadGet | AdvanceGet
    | ResumeWriter

  /** The elements in the fifo. */
  function Content(s: State): seq<int> {
    if |s.gets| <= |s.puts| then s.puts[|s.gets|..] else []
  }

  /** There is room for one more. */
  predicate Room(s: State) {
    |Content(s)| < |s.cells| - 1
  }

  ghost predicate Enabled(s: State, a: Action) {
    && s.writeX < |s.cells| && s.readX < |s.cells|
    && match a
       case SyncPut(_, _) | PutGeneric(_) | Put(_) => s.wpc.WIdle?
       case WakeWriter => s.wpc.WSuspended?
       case ContinuePut => s.wpc.WWoken?
       case TestPut => s.wpc.WTry?
       case StorePut => s.wpc.WStore?
       case AdvancePut => s.wpc.WAdvance?
       case ResumeReader => s.wpc.WResume?
       case SyncGet(_) | Get => s.rpc.RIdle?
       case WakeReader => s.rpc.RSuspended?
       case ContinueGet => s.rpc.RWoken?
       case TestGet => s.rpc.RTry?
       case LoadGet => s.rpc.RLoad?
       case AdvanceGet => s.rpc.RAdvance?
       case ResumeWriter => s.rpc.RResume?
  }

  /** After a suspension `put` or `get` is tried again only if the timeout was positive. */
  predicate Retries(t: Timeout) {
    t.Forever? || (t.For? && t.positive)
  }

  ghost function Apply(s: State, a: Action): State
    requires Enabled(s, a)
  {
    match a
    case SyncPut(val, timeout) =>
      if Advance(s.writeX, |s.cells|) != s.readX then
        s.(cells := s.cells[s.writeX := val], writeX := Advance(s.writeX, |s.cells|), puts := s.puts + [val], wpc := WResume)
      else if timeout.NoWait? then s.(suspendedWriter := false)
      else s.(suspendedWriter := true, wpc := WSuspended(val, timeout))
    case PutGeneric(val) => s.(wpc := WTry(val, false))
    case Put(val) => s.(wpc := WTry(val, true))
    case WakeWriter => s.(wpc := WWoken(s.wpc.val, s.wpc.timeout))
    case ContinuePut =>
      s.(suspendedWriter := false, wpc := if Retries(s.wpc.timeout) then WTry(s.wpc.val, false) else WIdle)
    case TestPut =>
      s.(wpc := if Advance(s.writeX, |s.cells|) == s.readX then WIdle else WStore(s.wpc.val, s.wpc.plain))
    case StorePut =>
      s.(cells := s.cells[s.writeX := s.wpc.val], wpc := WAdvance(s.wpc.val, s.wpc.plain))
    case AdvancePut =>
      s.(writeX := Advance(s.writeX, |s.cells|), puts := s.puts + [s.wpc.val],
          wpc := if s.wpc.plain then WIdle else WResume)
    case ResumeReader =>
      var n := s.(wpc := WIdle);
      if s.suspendedReader && s.rpc.RSuspended? then n.(rpc := RWoken(s.rpc.timeout)) else n
    case SyncGet(timeout) =>
      if s.readX != s.writeX then
        s.(readX := Advance(s.readX, |s.cells|), gets := s.gets + [s.cells[s.readX]], rpc := RResume)
      else if timeout.NoWait? then s.(suspendedReader := false)
      else s.(suspendedReader := true, rpc := RSuspended(timeout))
    case Get => s.(rpc := RTry(true))
    case WakeReader => s.(rpc := RWoken(s.rpc.timeout))
    case ContinueGet =>
      s.(suspendedReader := false, rpc := if Retries(s.rpc.timeout) then RTry(false) else RIdle)
    case TestGet => s.(rpc := if s.readX == s.writeX then RIdle else RLoad(s.rpc.plain))
    case LoadGet => s.(rpc := RAdvance(s.cells[s.readX], s.rpc.plain))
    case AdvanceGet =>
      s.(readX := Advance(s.readX, |s.cells|), gets := s.gets + [s.rpc.val],
          rpc := if s.rpc.plain then RIdle else RResume)
    case ResumeWriter =>
      var n := s.(rpc := RIdle);
      if s.suspendedWriter && s.wpc.WSuspended? then n.(wpc := WWoken(s.wpc.val, s.wpc.timeout)) else n
  }

  ghost predicate Init(s: State) {
    && 2 <= |s.cells| && s.writeX == 0 && s.readX == 0
    && !s.suspendedWriter && !s.suspendedReader
    && s.wpc.WIdle? && s.rpc.RIdle?
    && s.puts == [] && s.gets == []
  }

  // ---------------------------------------------------------------- invariant

  /** The ring holds the elements put and not yet got; what was got is what was put. */
  ghost predicate QueueInv(s: State) {
    && 2 <= |s.cells|
    && s.gets <= s.puts
    && Holds(s.cells, s.readX, s.writeX, Content(s))
    && (s.wpc.WStore? || s.wpc.WAdvance? ==> |Content(s)| < |s.cells| - 1)
    && (s.wpc.WAdvance? ==> s.cells[s.writeX] == s.wpc.val)
    && (s.rpc.RLoad? || s.rpc.RAdvance? ==> Content(s) != [])
    && (s.rpc.RAdvance? ==> s.rpc.val == Content(s)[0])
  }

  /** Why a suspended side may sleep on, when nobody uses the plain operations. */
  ghost predicate SleepInv(s: State) {
    && (s.wpc.WTry? || s.wpc.WStore? || s.wpc.WAdvance? ==> !s.wpc.plain)
    && (s.rpc.RTry? || s.rpc.RLoad? || s.rpc.RAdvance? ==> !s.rpc.plain)
    && (s.suspendedReader <==> s.rpc.RSuspended? || s.rpc.RWoken?)
    && (s.suspendedWriter <==> s.wpc.WSuspended? || s.wpc.WWoken?)
    && (s.rpc.RSuspended? ==> Content(s) == [] || s.wpc.WResume?)
    && (s.wpc.WSuspended? ==> |Content(s)| == |s.cells| - 1 || s.rpc.RResume?)
  }

  /** An element behind the others, in the cells and in the history. */
  lemma OnePut(s: State, n: State, val: int)
    requires QueueInv(s) && |Content(s)| < |s.cells| - 1
    requires n.cells == s.cells[s.writeX := val] && n.writeX == Advance(s.writeX, |s.cells|) && n.readX == s.readX
    requires n.puts == s.puts + [val] && n.gets == s.gets
    ensures n.gets <= n.puts && Content(n) == Content(s) + [val]
    ensures Holds(n.cells, n.readX, n.writeX, Content(n))
  {
    FullAndEmpty(s.cells, s.readX, s.writeX, Content(s));
    AdvanceIsSlot(s.writeX, |s.cells|);
    HoldsAfterWrite(s.cells, s.readX, s.writeX, Content(s), val);
    assert Content(n) == Content(s) + [val];
  }

  /** The first element taken. */
  lemma OneGet(s: State, n: State)
    requires QueueInv(s) && Content(s) != []
    requires n.cells == s.cells && n.readX == Advance(s.readX, |s.cells|) && n.writeX == s.writeX
    requires n.puts == s.puts && n.gets == s.gets + [s.cells[s.readX]]
    ensures s.cells[s.readX] == Content(s)[0]
    ensures n.gets <= n.puts && Content(n) == Content(s)[1..]
    ensures Holds(n.cells, n.readX, n.writeX, Content(n))
  {
    FirstTaken(s.puts, s.gets);
    HoldsAfterRead(s.cells, s.readX, s.writeX, Content(s), 1);
    AdvanceIsSlot(s.readX, |s.cells|);
  }

  lemma FirstTaken(puts: seq<int>, gets: seq<int>)
    requires gets <= puts && |gets| < |puts|
    ensures puts[|gets|..][0] == puts[|gets|]
    ensures gets + [puts[|gets|]] <= puts && puts[|gets| + 1..] == puts[|gets|..][1..]
  {
  }

  lemma PutKeepsQueue(s: State, a: Action)
    requires QueueInv(s) && Enabled(s, a)
    requires a.SyncPut? || a.TestPut? || a.StorePut? || a.AdvancePut?
    ensures QueueInv(Apply(s, a))
  {
    var n := Apply(s, a);
    FullAndEmpty(s.cells, s.readX, s.writeX, Content(s));
    if a.SyncPut? {
      if n.puts != s.puts {
        OnePut(s, n, a.val);
      }
    } else if a.AdvancePut? {
      assert s.cells[s.writeX := s.wpc.val] == s.cells;
      OnePut(s, n, s.wpc.val);
    } else if a.StorePut? {
      HoldsAfterFreeWrite(s.cells, s.readX, s.writeX, Content(s), 0, s.wpc.val);
    }
  }

  lemma GetKeepsQueue(s: State, a: Action)
    requires QueueInv(s) && Enabled(s, a)
    requires a.SyncGet? || a.TestGet? || a.LoadGet? || a.AdvanceGet?
    ensures QueueInv(Apply(s, a))
  {
    var n := Apply(s, a);
    FullAndEmpty(s.cells, s.readX, s.writeX, Content(s));
    if a.LoadGet? {
      HoldsAfterRead(s.cells, s.readX, s.writeX, Content(s), 1);
    } else if n.gets != s.gets {
      HoldsAfterRead(s.cells, s.readX, s.writeX, Content(s), 1);
      OneGet(s, n);
    }
  }

  lemma QueueStep(s: State, a: Action)
    requires QueueInv(s) && Enabled(s, a)
    ensures QueueInv(Apply(s, a))
  {
    if a.SyncPut? || a.TestPut? || a.StorePut? || a.AdvancePut? {
      PutKeepsQueue(s, a);
    } else if a.SyncGet? || a.TestGet? || a.LoadGet? || a.AdvanceGet? {
      GetKeepsQueue(s, a);
    }
  }

  predicate Plain(a: Action) {
    a.Put? || a.Get?
  }

  lemma SleepStep(s: State, a: Action)
    requires QueueInv(s) && SleepInv(s) && Enabled(s, a) && !Plain(a)
    ensures SleepInv(Apply(s, a))
  {
    FullAndEmpty(s.cells, s.readX, s.writeX, Content(s));
  }

  // ---------------------------------------------------------------- runs

  ghost predicate Legal(s: State, run: seq<Action>)
    decreases |run|
  {
    run == [] || (Enabled(s, run[0]) && Legal(Apply(s, run[0]), run[1..]))
  }

  ghost function After(s: State, run: seq<Action>): State
    requires Legal(s, run)
    decreases |run|
  {
    if run == [] then s else After(Apply(s, run[0]), run[1..])
  }

  lemma {:induction false} QueueAfter(s: State, run: seq<Action>)
    requires QueueInv(s) && Legal(s, run)
    ensures QueueInv(After(s, run))
    decreases |run|
  {
    if run != [] {
      QueueStep(s, run[0]);
      QueueAfter(Apply(s, run[0]), run[1..]);
    }
  }

  ghost predicate Synchronised(run: seq<Action>) {
    forall i :: 0 <= i < |run| ==> !Plain(run[i])
  }

  lemma {:induction false} SleepAfter(s: State, run: seq<Action>)
    requires QueueInv(s) && SleepInv(s) && Legal(s, run) && Synchronised(run)
    ensures QueueInv(After(s, run)) && SleepInv(After(s, run))
    decreases |run|
  {
    if run != [] {
      QueueStep(s, run[0]);
      SleepStep(s, run[0]);
      SleepAfter(Apply(s, run[0]), run[1..]);
    }
  }

  /** In every interleaving, of plain and synchronised operations alike, the fifo is a queue of
      capacity len-1: what was got is what was put first, in order, and the ring holds the rest. */
  lemma IsQueue(s: State, run: seq<Action>)
    requires Init(s) && Legal(s, run)
    ensures var e := After(s, run);
            && e.puts == e.gets + Content(e)
            && |Content(e)| <= |e.cells| - 1
            && Holds(e.cells, e.readX, e.writeX, Content(e))
  {
    QueueAfter(s, run);
    WhatIsLeft(After(s, run));
  }

  lemma WhatIsLeft(e: State)
    requires e.gets <= e.puts
    ensures e.puts == e.gets + Content(e)
  {
  }

  /** While the reader is about to load a cell, the writer's index is another one. */
  lemma NoSlotConflict(s: State, run: seq<Action>, a: Action)
    requires Init(s) && Legal(s, run) && Enabled(After(s, run), a)
    requires After(s, run).rpc.RLoad? && (a.StorePut? || a.SyncPut?)
    ensures var e := After(s, run); var n := Apply(e, a);
            && e.writeX != e.readX
            && |n.cells| == |e.cells| && n.cells[e.readX] == e.cells[e.readX]
  {
    QueueAfter(s, run);
    var e := After(s, run);
    FullAndEmpty(e.cells, e.readX, e.writeX, Content(e));
  }

  /** A put is refused exactly when it finds the fifo full, a get exactly when it finds it empty. */
  lemma RefusedIff(s: State, run: seq<Action>, a: Action)
    requires Init(s) && Legal(s, run) && Enabled(After(s, run), a)
    ensures var e := After(s, run); var n := Apply(e, a);
            && (a.SyncPut? ==> (n.puts == e.puts <==> |Content(e)| == |e.cells| - 1))
            && (a.TestPut? ==> (n.wpc.WIdle? <==> |Content(e)| == |e.cells| - 1))
            && (a.SyncGet? ==> (n.gets == e.gets <==> Content(e) == []))
            && (a.TestGet? ==> (n.rpc.RIdle? <==> Content(e) == []))
  {
    QueueAfter(s, run);
    var e := After(s, run);
    FullAndEmpty(e.cells, e.readX, e.writeX, Content(e));
    assert |e.puts + [0]| != |e.puts|;
  }

  /** With the synchronised operations alone nobody sleeps for nothing: a sleeping reader means an
      empty fifo, or a writer whose next step resumes it; a sleeping writer means a full fifo, or a
      reader whose next step resumes it. */
  lemma SleepersHaveReason(s: State, run: seq<Action>)
    requires Init(s) && Legal(s, run) && Synchronised(run)
    ensures var e := After(s, run);
            && (e.rpc.RSuspended? && Content(e) != [] ==>
                  Enabled(e, ResumeReader) && Apply(e, ResumeReader).rpc.RWoken?)
            && (e.wpc.WSuspended? && |Content(e)| < |e.cells| - 1 ==>
                  Enabled(e, ResumeWriter) && Apply(e, ResumeWriter).wpc.WWoken?)
  {
    SleepAfter(s, run);
    var e := After(s, run);
    FullAndEmpty(e.cells, e.readX, e.writeX, Content(e));
  }

  /** No deadlock: the two sides are never asleep at the same time. */
  lemma NeverBothAsleep(s: State, run: seq<Action>)
    requires Init(s) && Legal(s, run) && Synchronised(run)
    ensures var e := After(s, run); !(e.rpc.RSuspended? && e.wpc.WSuspended?)
  {
    SleepAfter(s, run);
  }

  // ---------------------------------------------------------------- calls and what becomes of them

  /** A call as its caller made it: `plain` for `put` and `get` themselves; only `syncPut` and `syncGet`
      have a timeout. */
  datatype PutCall = PutCall(val: int, timeout: Option<Timeout>, plain: bool)

  datatype GetCall = GetCall(timeout: Option<Timeout>, plain: bool)

  /** The call under way once `a` has begun: the one it begins, or the earlier one. */
  function WithPut(call: Option<PutCall>, a: Action): Option<PutCall> {
    match a
    case SyncPut(val, timeout) => Some(PutCall(val, Some(timeout), false))
    case PutGeneric(val) => Some(PutCall(val, None, false))
    case Put(val) => Some(PutCall(val, None, true))
    case _ => call
  }

  function WithGet(call: Option<GetCall>, a: Action): Option<GetCall> {
    match a
    case SyncGet(timeout) => Some(GetCall(Some(timeout), false))
    case Get => Some(GetCall(None, true))
    case _ => call
  }

  predicate TimeoutIsPositive(timeout: Option<Timeout>) {
    timeout == Some(Forever) || timeout == Some(For(true))
  }

  predicate TakesPut(s: State, a: Action) {
    (a.SyncPut? && Room(s)) || a.AdvancePut?
  }

  /** A call is refused that finds no room and does not wait, on its retry too, or wakes up and does
      not try again. */
  predicate RefusesPut(s: State, a: Action, call: PutCall) {
    || (!Room(s) && ((a.SyncPut? && call.timeout == Some(NoWait)) || a.TestPut?))
    || (a.ContinuePut? && !TimeoutIsPositive(call.timeout))
  }

  predicate TakesGet(s: State, a: Action) {
    (a.SyncGet? && Content(s) != []) || a.AdvanceGet?
  }

  predicate RefusesGet(s: State, a: Action, call: GetCall) {
    || (Content(s) == [] && ((a.SyncGet? && call.timeout == Some(NoWait)) || a.TestGet?))
    || (a.ContinueGet? && !TimeoutIsPositive(call.timeout))
  }

  /** The call still under way after a step. */
  ghost function PutLeft(s: State, a: Action, call: Option<PutCall>): Option<PutCall> {
    var c := WithPut(call, a);
    if c.Some? && (TakesPut(s, a) || RefusesPut(s, a, c.value)) then None else c
  }

  ghost function GetLeft(s: State, a: Action, call: Option<GetCall>): Option<GetCall> {
    var c := WithGet(call, a);
    if c.Some? && (TakesGet(s, a) || RefusesGet(s, a, c.value)) then None else c
  }

  ghost function PutUnderWay(s: State, run: seq<Action>, call: Option<PutCall>): Option<PutCall>
    requires Legal(s, run)
    decreases |run|
  {
    if run == [] then call else PutUnderWay(Apply(s, run[0]), run[1..], PutLeft(s, run[0], call))
  }

  ghost function GetUnderWay(s: State, run: seq<Action>, call: Option<GetCall>): Option<GetCall>
    requires Legal(s, run)
    decreases |run|
  {
    if run == [] then call else GetUnderWay(Apply(s, run[0]), run[1..], GetLeft(s, run[0], call))
  }

  /** The arguments of the puts that are completed and not refused, in order. */
  ghost function ArgumentsTaken(s: State, run: seq<Action>, call: Option<PutCall>): seq<int>
    requires Legal(s, run)
    decreases |run|
  {
    if run == [] then []
    else
      var c := WithPut(call, run[0]);
      (if c.Some? && TakesPut(s, run[0]) then [c.value.val] else []) +
      ArgumentsTaken(Apply(s, run[0]), run[1..], PutLeft(s, run[0], call))
  }

  /** The number of gets that are completed and not refused. */
  ghost function GetsTaken(s: State, run: seq<Action>, call: Option<GetCall>): nat
    requires Legal(s, run)
    decreases |run|
  {
    if run == [] then 0
    else
      var c := WithGet(call, run[0]);
      (if c.Some? && TakesGet(s, run[0]) then 1 else 0) + GetsTaken(Apply(s, run[0]), run[1..], GetLeft(s, run[0], call))
  }

  /** The writer has in hand what the caller passed, and does nothing between calls but resume the reader. */
  ghost predicate PutInv(s: State, call: Option<PutCall>) {
    && (call.None? <==> s.wpc.WIdle? || s.wpc.WResume?)
    && (call.Some? ==> s.wpc.val == call.value.val)
    && (s.wpc.WSuspended? || s.wpc.WWoken? ==> Some(s.wpc.timeout) == call.value.timeout && !call.value.plain)
    && (s.wpc.WTry? || s.wpc.WStore? || s.wpc.WAdvance? ==> s.wpc.plain == call.value.plain)
  }

  ghost predicate GetInv(s: State, call: Option<GetCall>) {
    && (call.None? <==> s.rpc.RIdle? || s.rpc.RResume?)
    && (s.rpc.RSuspended? || s.rpc.RWoken? ==> Some(s.rpc.timeout) == call.value.timeout && !call.value.plain)
    && (s.rpc.RTry? || s.rpc.RLoad? || s.rpc.RAdvance? ==> s.rpc.plain == call.value.plain)
  }

  predicate IndicesTell(s: State) {
    (Advance(s.writeX, |s.cells|) == s.readX <==> !Room(s)) && (s.readX == s.writeX <==> Content(s) == [])
  }

  lemma QueueTells(s: State)
    requires QueueInv(s)
    ensures IndicesTell(s)
  {
    FullAndEmpty(s.cells, s.readX, s.writeX, Content(s));
  }

  lemma PutInvStep(s: State, a: Action, call: Option<PutCall>)
    requires PutInv(s, call) && IndicesTell(s) && Enabled(s, a)
    ensures PutInv(Apply(s, a), PutLeft(s, a, call))
  {
  }

  lemma PutStepTakes(s: State, a: Action, call: Option<PutCall>)
    requires PutInv(s, call) && IndicesTell(s) && Enabled(s, a)
    ensures var c := WithPut(call, a);
            Apply(s, a).puts == s.puts + if c.Some? && TakesPut(s, a) then [c.value.val] else []
  {
  }

  lemma GetInvStep(s: State, a: Action, call: Option<GetCall>)
    requires GetInv(s, call) && IndicesTell(s) && Enabled(s, a)
    ensures GetInv(Apply(s, a), GetLeft(s, a, call))
  {
  }

  lemma GetStepTakes(s: State, a: Action, call: Option<GetCall>)
    requires GetInv(s, call) && IndicesTell(s) && Enabled(s, a)
    ensures var c := WithGet(call, a);
            |Apply(s, a).gets| == |s.gets| + if c.Some? && TakesGet(s, a) then 1 else 0
  {
  }

  lemma ArgumentsFront(before: seq<int>, s: State, run: seq<Action>, call: Option<PutCall>)
    requires run != [] && Legal(s, run)
    ensures var c := WithPut(call, run[0]);
            before + ArgumentsTaken(s, run, call) ==
            before + (if c.Some? && TakesPut(s, run[0]) then [c.value.val] else []) +
              ArgumentsTaken(Apply(s, run[0]), run[1..], PutLeft(s, run[0], call))
  {
  }

  lemma {:induction false} PutCallsAfter(s: State, run: seq<Action>, call: Option<PutCall>)
    requires QueueInv(s) && PutInv(s, call) && Legal(s, run)
    ensures PutInv(After(s, run), PutUnderWay(s, run, call))
    ensures After(s, run).puts == s.puts + ArgumentsTaken(s, run, call)
    decreases |run|
  {
    if run == [] {
      assert s.puts + [] == s.puts;
    } else {
      QueueTells(s);
      PutInvStep(s, run[0], call);
      PutStepTakes(s, run[0], call);
      QueueStep(s, run[0]);
      PutCallsAfter(Apply(s, run[0]), run[1..], PutLeft(s, run[0], call));
      ArgumentsFront(s.puts, s, run, call);
    }
  }

  lemma {:induction false} GetCallsAfter(s: State, run: seq<Action>, call: Option<GetCall>)
    requires QueueInv(s) && GetInv(s, call) && Legal(s, run)
    ensures GetInv(After(s, run), GetUnderWay(s, run, call))
    ensures |After(s, run).gets| == |s.gets| + GetsTaken(s, run, call)
    decreases |run|
  {
    if run != [] {
      QueueTells(s);
      GetInvStep(s, run[0], call);
      GetStepTakes(s, run[0], call);
      QueueStep(s, run[0]);
      GetCallsAfter(Apply(s, run[0]), run[1..], GetLeft(s, run[0], call));
    }
  }

  /** Over every run: what was put is what the callers of the puts not refused passed, and the gets not
      refused were given the first of it, one element each. */
  lemma CallersElements(s: State, run: seq<Action>)
    requires Init(s) && Legal(s, run)
    ensures var e := After(s, run); var n := GetsTaken(s, run, None);
            && e.puts == ArgumentsTaken(s, run, None)
            && n <= |e.puts| && e.gets == e.puts[..n]
  {
    PutCallsAfter(s, run, None);
    GetCallsAfter(s, run, None);
    QueueAfter(s, run);
  }

  /** A put that has taken its element goes on to resume a sleeping reader exactly if it is not the plain
      one; a get likewise. */
  lemma ResumesIff(s: State, run: seq<Action>, a: Action)
    requires Init(s) && Legal(s, run) && Enabled(After(s, run), a)
    ensures var e := After(s, run); var put, get := WithPut(PutUnderWay(s, run, None), a), WithGet(GetUnderWay(s, run, None), a);
            && (TakesPut(e, a) ==> put.Some? && Apply(e, a).wpc == if put.value.plain then WIdle else WResume)
            && (TakesGet(e, a) ==> get.Some? && Apply(e, a).rpc == if get.value.plain then RIdle else RResume)
  {
    PutCallsAfter(s, run, None);
    GetCallsAfter(s, run, None);
    QueueAfter(s, run);
    QueueTells(After(s, run));
  }

  /** A put that slept and was resumed, or whose time is over, tries again, with the element it was called
      with, exactly if its timeout is positive or none. */
  lemma PutTriesAgainIff(s: State, run: seq<Action>)
    requires Init(s) && Legal(s, run) && Enabled(After(s, run), ContinuePut)
    ensures var n, call := Apply(After(s, run), ContinuePut), PutUnderWay(s, run, None);
            call.Some? && n.wpc == if TimeoutIsPositive(call.value.timeout) then WTry(call.value.val, false) else WIdle
  {
    PutCallsAfter(s, run, None);
  }

  lemma GetTriesAgainIff(s: State, run: seq<Action>)
    requires Init(s) && Legal(s, run) && Enabled(After(s, run), ContinueGet)
    ensures var n, call := Apply(After(s, run), ContinueGet), GetUnderWay(s, run, None);
            call.Some? && n.rpc == if TimeoutIsPositive(call.value.timeout) then RTry(false) else RIdle
  {
    GetCallsAfter(s, run, None);
  }

  // ---------------------------------------------------------------- calls without a timeout

  /** A call sleeps exactly when it finds the fifo full, or empty, and its timeout is not 0. */
  lemma SleepsIff(s: State, run: seq<Action>, a: Action)
    requires Init(s) && Legal(s, run) && Enabled(After(s, run), a)
    ensures var e := After(s, run); var n := Apply(e, a);
            && (a.SyncPut? ==> (n.wpc.WSuspended? <==> |Content(e)| == |e.cells| - 1 && !a.timeout.NoWait?))
            && (a.SyncGet? ==> (n.rpc.RSuspended? <==> Content(e) == [] && !a.timeout.NoWait?))
            && (a.SyncPut? && |Content(e)| == |e.cells| - 1 && a.timeout.NoWait? ==> n.wpc.WIdle? && n.puts == e.puts)
            && (a.SyncGet? && Content(e) == [] && a.timeout.NoWait? ==> n.rpc.RIdle? && n.gets == e.gets)
  {
    QueueAfter(s, run);
    var e := After(s, run);
    FullAndEmpty(e.cells, e.readX, e.writeX, Content(e));
  }

  /** The steps between a writer's falling asleep in `syncPut` and the test of its retry: any steps of
      the reader, and the writer's own; nobody else resumes the writer. */
  ghost predicate UntilPutRetry(run: seq<Action>) {
    forall i :: 0 <= i < |run| ==> !run[i].WakeWriter? && !run[i].TestPut?
  }

  ghost predicate UntilGetRetry(run: seq<Action>) {
    forall i :: 0 <= i < |run| ==> !run[i].WakeReader? && !run[i].TestGet?
  }

  /** After these steps the retry is to be tested and will be refused: the call returns false. */
  ghost predicate PutRetryRefused(n: State, run: seq<Action>) {
    Legal(n, run) && UntilPutRetry(run) && After(n, run).wpc.WTry? && !Room(After(n, run))
  }

  ghost predicate GetRetryRefused(n: State, run: seq<Action>) {
    Legal(n, run) && UntilGetRetry(run) && After(n, run).rpc.RTry? && Content(After(n, run)) == []
  }

  /** There is room whenever the writer is resumed or on its way to the retry. */
  ghost predicate RoomInv(s: State) {
    && QueueInv(s)
    && (s.wpc.WSuspended? && s.rpc.RResume? ==> Room(s))
    && (s.wpc.WWoken? || s.wpc.WTry? ==> Room(s))
    && (((s.wpc.WSuspended? || s.wpc.WWoken?) && s.wpc.timeout.Forever?) || s.wpc.WTry?)
  }

  ghost predicate DataInv(s: State) {
    && QueueInv(s)
    && (s.rpc.RSuspended? && s.wpc.WResume? ==> Content(s) != [])
    && (s.rpc.RWoken? || s.rpc.RTry? ==> Content(s) != [])
    && (((s.rpc.RSuspended? || s.rpc.RWoken?) && s.rpc.timeout.Forever?) || s.rpc.RTry?)
  }

  lemma ContentSize(s: State)
    requires s.gets <= s.puts
    ensures |Content(s)| == |s.puts| - |s.gets|
  {
  }

  /** Histories only grow. */
  lemma HistoriesGrow(s: State, a: Action)
    requires Enabled(s, a)
    ensures var n := Apply(s, a);
            |n.cells| == |s.cells| && |s.puts| <= |n.puts| && |s.gets| <= |n.gets|
  {
  }

  lemma RoomStep(s: State, a: Action)
    requires RoomInv(s) && Enabled(s, a) && !a.WakeWriter? && !a.TestPut?
    ensures RoomInv(Apply(s, a))
  {
    QueueStep(s, a);
    HistoriesGrow(s, a);
    ContentSize(s);
    ContentSize(Apply(s, a));
    FullAndEmpty(s.cells, s.readX, s.writeX, Content(s));
  }

  lemma DataStep(s: State, a: Action)
    requires DataInv(s) && Enabled(s, a) && !a.WakeReader? && !a.TestGet?
    ensures DataInv(Apply(s, a))
  {
    QueueStep(s, a);
    HistoriesGrow(s, a);
    ContentSize(s);
    ContentSize(Apply(s, a));
    FullAndEmpty(s.cells, s.readX, s.writeX, Content(s));
  }

  lemma {:induction false} RoomAfter(s: State, run: seq<Action>)
    requires RoomInv(s) && Legal(s, run) && UntilPutRetry(run)
    ensures RoomInv(After(s, run))
    decreases |run|
  {
    if run != [] {
      RoomStep(s, run[0]);
      RoomAfter(Apply(s, run[0]), run[1..]);
    }
  }

  lemma {:induction false} DataAfter(s: State, run: seq<Action>)
    requires DataInv(s) && Legal(s, run) && UntilGetRetry(run)
    ensures DataInv(After(s, run))
    decreases |run|
  {
    if run != [] {
      DataStep(s, run[0]);
      DataAfter(Apply(s, run[0]), run[1..]);
    }
  }

  lemma TwoSteps(s: State, a: Action, b: Action)
    requires Enabled(s, a) && Enabled(Apply(s, a), b)
    ensures Legal(s, [a, b]) && After(s, [a, b]) == Apply(Apply(s, a), b)
  {
    var n := Apply(s, a);
    assert [b][1..] == [] && After(n, [b]) == After(Apply(n, b), []);
    assert [a, b][1..] == [b] && After(s, [a, b]) == After(n, [b]);
  }

  /** An untimed `syncPut` that finds the fifo full can return false, nobody but the reader resuming
      the writer, exactly if the reader stands before the resume of an earlier get: that resume comes
      too late for the earlier put and too early for this one. */
  lemma PutRetryRefusedIff(s: State, run: seq<Action>, val: int)
    requires Init(s) && Legal(s, run)
    requires var e := After(s, run); Enabled(e, SyncPut(val, Forever)) && !Room(e)
    ensures var e := After(s, run); var n := Apply(e, SyncPut(val, Forever));
            (exists more :: PutRetryRefused(n, more)) <==> e.rpc.RResume?
  {
    QueueAfter(s, run);
    SleepsIff(s, run, SyncPut(val, Forever));
    var e := After(s, run);
    var n := Apply(e, SyncPut(val, Forever));
    QueueStep(e, SyncPut(val, Forever));
    if e.rpc.RResume? {
      TwoSteps(n, ResumeWriter, ContinuePut);
      assert PutRetryRefused(n, [ResumeWriter, ContinuePut]);
    } else {
      forall more | Legal(n, more) && UntilPutRetry(more) ensures !PutRetryRefused(n, more) {
        RoomAfter(n, more);
      }
    }
  }

  /** Dually for an untimed `syncGet` that finds the fifo empty. */
  lemma GetRetryRefusedIff(s: State, run: seq<Action>)
    requires Init(s) && Legal(s, run)
    requires var e := After(s, run); Enabled(e, SyncGet(Forever)) && Content(e) == []
    ensures var e := After(s, run); var n := Apply(e, SyncGet(Forever));
            (exists more :: GetRetryRefused(n, more)) <==> e.wpc.WResume?
  {
    QueueAfter(s, run);
    SleepsIff(s, run, SyncGet(Forever));
    var e := After(s, run);
    var n := Apply(e, SyncGet(Forever));
    QueueStep(e, SyncGet(Forever));
    if e.wpc.WResume? {
      TwoSteps(n, ResumeReader, ContinueGet);
      assert GetRetryRefused(n, [ResumeReader, ContinueGet]);
    } else {
      forall more | Legal(n, more) && UntilGetRetry(more) ensures !GetRetryRefused(n, more) {
        DataAfter(n, more);
      }
    }
  }

  lemma Extend(s: State, run: seq<Action>, a: Action)
    requires Legal(s, run) && Enabled(After(s, run), a)
    ensures Legal(s, run + [a]) && After(s, run + [a]) == Apply(After(s, run), a)
    decreases |run|
  {
    if run == [] {
      assert run + [a] == [a] && [a][1..] == [];
    } else {
      Extend(Apply(s, run[0]), run[1..], a);
      assert (run + [a])[1..] == run[1..] + [a];
    }
  }

  /** Such a moment comes: with room for one element, the reader has got the first one and is to
      resume, when the writer puts the second and then calls `syncPut` again. */
  lemma PutRefusedWithoutTimeout() returns (s: State, run: seq<Action>, more: seq<Action>)
    ensures Init(s) && Legal(s, run) && Synchronised(run)
    ensures var e := After(s, run); Enabled(e, SyncPut(9, Forever)) && !Room(e)
    ensures PutRetryRefused(Apply(After(s, run), SyncPut(9, Forever)), more)
  {
    s := State([0, 0], 0, 0, false, false, WIdle, RIdle, [], []);
    run := [];
    Extend(s, run, SyncPut(7, Forever));
    run := run + [SyncPut(7, Forever)];
    Extend(s, run, ResumeReader);
    run := run + [ResumeReader];
    Extend(s, run, SyncGet(Forever));
    run := run + [SyncGet(Forever)];
    Extend(s, run, SyncPut(8, Forever));
    run := run + [SyncPut(8, Forever)];
    Extend(s, run, ResumeReader);
    run := run + [ResumeReader];
    var e := After(s, run);
    assert e.puts == [7, 8] && e.gets == [7] && e.rpc.RResume? && e.wpc.WIdle?;
    assert Content(e) == [8];
    PutRetryRefusedIff(s, run, 9);
    more :| PutRetryRefused(Apply(e, SyncPut(9, Forever)), more);
  }

  /** And dually: the writer is to resume after a put whose element the reader has already got. */
  lemma GetRefusedWithoutTimeout() returns (s: State, run: seq<Action>, more: seq<Action>)
    ensures Init(s) && Legal(s, run) && Synchronised(run)
    ensures var e := After(s, run); Enabled(e, SyncGet(Forever)) && Content(e) == []
    ensures GetRetryRefused(Apply(After(s, run), SyncGet(Forever)), more)
  {
    s := State([0, 0], 0, 0, false, false, WIdle, RIdle, [], []);
    run := [];
    Extend(s, run, SyncPut(7, Forever));
    run := run + [SyncPut(7, Forever)];
    Extend(s, run, SyncGet(Forever));
    run := run + [SyncGet(Forever)];
    Extend(s, run, ResumeWriter);
    run := run + [ResumeWriter];
    var e := After(s, run);
    assert e.puts == [7] && e.gets == [7] && e.wpc.WResume? && e.rpc.RIdle?;
    assert Content(e) == [];
    GetRetryRefusedIff(s, run);
    more :| GetRetryRefused(Apply(e, SyncGet(Forever)), more);
  }
}
