/** The fifo with several readers used by its writer and one reader at once, as a machine whose steps
    are single accesses to indices and cells. Nothing in the program keeps a put from pushing a reader
    ahead that is in the middle of a get; the other readers play no part. */
module MultipleReaderRaces {
  import opened Common
  import opened Rings

  /** Where the writer is in `put`; `position` says which element, of all ever put, an index stood for
      when it was loaded. */
  datatype WriterPc =
    | WIdle
    | WTest(val: int)
    | WPush(val: int)                                // found the reader in the way
    | WPushing(val: int, x: nat, position: nat)      // has loaded the reader's index
    | WCount(val: int)                               // has stored it, one further
    | WStore(val: int)
    | WAdvance(val: int)

  datatype ReaderPc =
    | RIdle
    | RTestReadX(x: nat, position: nat)              // has loaded its index to compare the two
    | RTestWriteX(w: nat, puts: nat)                 // has loaded the writer's first; `puts` elements were there
    | RFound                                         // found the fifo not empty
    | RCopy(x: nat, position: nat)                   // has loaded its index
    | RCopied(position: nat)                         // has copied the cell
    | RStore(x: nat, position: nat)                  // has loaded its index again

  /** What a get copied; `available` if the element had been put by then. */
  datatype Delivery = Delivery(position: nat, value: int, available: bool)

  /** `position` is the element the reader's index stands for; `taken` and `skipped` are the elements
      gets have gone for and pushes have counted as lost. The program has none of these. */
  datatype State = State(
    cells: seq<int>, writeX: nat, readX: nat, lost: nat, wpc: WriterPc, rpc: ReaderPc,
    history: seq<int>, position: nat, taken: seq<nat>, skipped: seq<nat>, deliveries: seq<Delivery>)

  datatype Action =
    | PutStart(val: int) | PutTest | PushLoad | PushStore | PushCount | PutStore | PutAdvance
    | GetTestReadX | GetTestWriteX | GetTest | GetIndex | GetCopy | GetReload | GetStore

  ghost predicate Enabled(s: State, a: Action) {
    && s.writeX < |s.cells| && s.readX < |s.cells|
    && match a
       case PutStart(_) => s.wpc.WIdle?
       case PutTest => s.wpc.WTest?
       case PushLoad => s.wpc.WPush?
       case PushStore => s.wpc.WPushing?
       case PushCount => s.wpc.WCount?
       case PutStore => s.wpc.WStore?
       case PutAdvance => s.wpc.WAdvance?
       case GetTestReadX => s.rpc.RIdle?
       case GetTestWriteX => s.rpc.RIdle?
       case GetTest => s.rpc.RTestReadX? || s.rpc.RTestWriteX?
       case GetIndex => s.rpc.RFound?
       case GetCopy => s.rpc.RCopy? && s.rpc.x < |s.cells|
       case GetReload => s.rpc.RCopied?
       case GetStore => s.rpc.RStore?
  }

  /** The index not loaded yet equals the one loaded; the language leaves open which of the two comes first. */
  predicate TestFails(s: State)
    requires s.rpc.RTestReadX? || s.rpc.RTestWriteX?
  {
    if s.rpc.RTestReadX? then s.rpc.x == s.writeX else s.readX == s.rpc.w
  }

  ghost function Apply(s: State, a: Action): State
    requires Enabled(s, a)
  {
    match a
    case PutStart(val) => s.(wpc := WTest(val))
    case PutTest => s.(wpc := if Advance(s.writeX, |s.cells|) == s.readX then WPush(s.wpc.val) else WStore(s.wpc.val))
    case PushLoad => s.(wpc := WPushing(s.wpc.val, s.readX, s.position), skipped := s.skipped + [s.position])
    case PushStore =>
      s.(readX := Advance(s.wpc.x, |s.cells|), position := s.wpc.position + 1, wpc := WCount(s.wpc.val))
    case PushCount => s.(lost := s.lost + 1, wpc := WStore(s.wpc.val))
    case PutStore => s.(cells := s.cells[s.writeX := s.wpc.val], wpc := WAdvance(s.wpc.val))
    case PutAdvance => s.(writeX := Advance(s.writeX, |s.cells|), history := s.history + [s.wpc.val], wpc := WIdle)
    case GetTestReadX => s.(rpc := RTestReadX(s.readX, s.position))
    case GetTestWriteX => s.(rpc := RTestWriteX(s.writeX, |s.history|))
    case GetTest => s.(rpc := if TestFails(s) then RIdle else RFound)
    case GetIndex => s.(rpc := RCopy(s.readX, s.position), taken := s.taken + [s.position])
    case GetCopy =>
      var p := s.rpc.position;
      s.(rpc := RCopied(p), deliveries := s.deliveries + [Delivery(p, s.cells[s.rpc.x], p < |s.history|)])
    case GetReload => s.(rpc := RStore(s.readX, s.position))
    case GetStore => s.(readX := Advance(s.rpc.x, |s.cells|), position := s.rpc.position + 1, rpc := RIdle)
  }

  predicate IsGet(a: Action) {
    a.GetTestReadX? || a.GetTestWriteX? || a.GetTest? || a.GetIndex? || a.GetCopy? || a.GetReload? || a.GetStore?
  }

  ghost predicate Init(s: State) {
    && 2 <= |s.cells| && s.writeX == 0 && s.readX == 0 && s.lost == 0 && s.wpc.WIdle? && s.rpc.RIdle?
    && s.history == [] && s.position == 0 && s.taken == [] && s.skipped == [] && s.deliveries == []
  }

  ghost predicate Legal(s: State, run: seq<Action>)
    decreases |run|
  {
    run == [] || (Enabled(s, run[0]) && Legal(Apply(s, run[0]), run[1..]))
  }

  ghost function After(s: State, run: seq<Action>): State
    requires Legal(s, run)
    decreases |run|
  {
    if run == [] then s else After(Apply(s, run[0]), run[1..])
  }

  /** The reader is between loading its index and storing the next one. */
  predicate InGet(s: State) {
    s.rpc.RCopy? || s.rpc.RCopied? || s.rpc.RStore?
  }

  /** The writer is changing the reader's index at the same time. */
  predicate Overlapping(s: State) {
    s.wpc.WPushing? && InGet(s)
  }

  ghost predicate NeverOverlapping(s: State, run: seq<Action>)
    requires Legal(s, run)
    decreases |run|
  {
    !Overlapping(s) && (run == [] || NeverOverlapping(Apply(s, run[0]), run[1..]))
  }

  /** No element is delivered and counted as lost. */
  ghost predicate LostOrDelivered(s: State) {
    forall i, j :: 0 <= i < |s.taken| && 0 <= j < |s.skipped| ==> s.taken[i] != s.skipped[j]
  }

  // ---------------------------------------------------------------- without overlap

  /** Everything before the reader's position has been taken or skipped, once; an element being taken
      or skipped is the one at the position. */
  ghost predicate CountInv(s: State) {
    && !Overlapping(s)
    && (InGet(s) ==> s.taken != [] && s.taken[|s.taken| - 1] == s.position)
    && (s.wpc.WPushing? ==> s.skipped != [] && s.skipped[|s.skipped| - 1] == s.position == s.wpc.position)
    && (s.rpc.RCopy? || s.rpc.RCopied? || s.rpc.RStore? ==> s.rpc.position == s.position)
    && (s.rpc.RCopy? || s.rpc.RStore? ==> s.rpc.x == s.readX)
    && (s.wpc.WPushing? ==> s.wpc.x == s.readX)
    && |s.taken| + |s.skipped| == s.position + (if InGet(s) || s.wpc.WPushing? then 1 else 0)
    && |s.skipped| == s.lost + (if s.wpc.WPushing? || s.wpc.WCount? then 1 else 0)
    && (forall i :: 0 <= i < |s.taken| ==> s.taken[i] < s.position || (InGet(s) && i == |s.taken| - 1))
    && (forall j :: 0 <= j < |s.skipped| ==> s.skipped[j] < s.position || (s.wpc.WPushing? && j == |s.skipped| - 1))
    && NoDuplicates(s.taken) && NoDuplicates(s.skipped) && LostOrDelivered(s)
  }

  lemma CountGet(s: State, a: Action)
    requires CountInv(s) && Enabled(s, a) && IsGet(a) && !Overlapping(Apply(s, a))
    ensures CountInv(Apply(s, a))
  {
  }

  lemma CountPut(s: State, a: Action)
    requires CountInv(s) && Enabled(s, a) && !IsGet(a) && !Overlapping(Apply(s, a))
    ensures CountInv(Apply(s, a))
  {
  }

  lemma CountStep(s: State, a: Action)
    requires CountInv(s) && Enabled(s, a) && !Overlapping(Apply(s, a))
    ensures CountInv(Apply(s, a))
  {
    if IsGet(a) {
      CountGet(s, a);
    } else {
      CountPut(s, a);
    }
  }

  // ---------------------------------------------------------------- with overlap

  /** The step that begins an overlap takes an element that is being skipped, or skips one that is
      being taken. */
  lemma OverlapCollides(s: State, a: Action)
    requires CountInv(s) && Enabled(s, a) && Overlapping(Apply(s, a))
    ensures !LostOrDelivered(Apply(s, a))
  {
    var n := Apply(s, a);
    assert n.taken[|n.taken| - 1] == n.skipped[|n.skipped| - 1] == s.position;
  }

  lemma CollisionStays(s: State, a: Action)
    requires Enabled(s, a) && !LostOrDelivered(s)
    ensures !LostOrDelivered(Apply(s, a))
  {
    var n := Apply(s, a);
    var i, j :| 0 <= i < |s.taken| && 0 <= j < |s.skipped| && s.taken[i] == s.skipped[j];
    assert n.taken[i] == n.skipped[j];
  }

  lemma {:induction false} CollisionAfter(s: State, run: seq<Action>)
    requires Legal(s, run) && !LostOrDelivered(s)
    ensures !LostOrDelivered(After(s, run))
    decreases |run|
  {
    if run != [] {
      CollisionStays(s, run[0]);
      CollisionAfter(Apply(s, run[0]), run[1..]);
    }
  }

  // ---------------------------------------------------------------- exactly when

  lemma {:induction false} CountAfter(s: State, run: seq<Action>)
    requires CountInv(s) && Legal(s, run)
    ensures NeverOverlapping(s, run) ==> CountInv(After(s, run))
    ensures !NeverOverlapping(s, run) ==> !LostOrDelivered(After(s, run))
    decreases |run|
  {
    if run != [] {
      var n := Apply(s, run[0]);
      if Overlapping(n) {
        OverlapCollides(s, run[0]);
        CollisionAfter(n, run[1..]);
        assert !NeverOverlapping(n, run[1..]);
      } else {
        CountStep(s, run[0]);
        CountAfter(n, run[1..]);
      }
    }
  }

  /** Over every run, no element is both delivered and counted as lost if and only if no push changed
      the reader's index while a get was using it. */
  lemma LostOrDeliveredIff(s: State, run: seq<Action>)
    requires Init(s) && Legal(s, run)
    ensures LostOrDelivered(After(s, run)) <==> NeverOverlapping(s, run)
  {
    CountAfter(s, run);
  }

  /** Without such an overlap the account is exact: whenever both sides are idle, every element before
      the reader's position was delivered or counted as lost, and none twice. */
  lemma AccountIsExact(s: State, run: seq<Action>)
    requires Init(s) && Legal(s, run) && NeverOverlapping(s, run)
    requires After(s, run).wpc.WIdle? && After(s, run).rpc.RIdle?
    ensures var e := After(s, run);
            && |e.taken| + e.lost == e.position
            && (forall p: nat :: p < e.position <==> p in e.taken || p in e.skipped)
            && NoDuplicates(e.taken) && NoDuplicates(e.skipped) && LostOrDelivered(e)
  {
    CountAfter(s, run);
    var e := After(s, run);
    AllBelow(e.taken, e.skipped, e.position);
  }

  /** As many different numbers below `n` as there are: all of them. */
  lemma AllBelow(taken: seq<nat>, skipped: seq<nat>, n: nat)
    requires NoDuplicates(taken) && NoDuplicates(skipped) && |taken| + |skipped| == n
    requires forall i, j :: 0 <= i < |taken| && 0 <= j < |skipped| ==> taken[i] != skipped[j]
    requires (forall i :: 0 <= i < |taken| ==> taken[i] < n) && (forall j :: 0 <= j < |skipped| ==> skipped[j] < n)
    ensures forall p: nat :: p < n <==> p in taken || p in skipped
  {
    DistinctCount(taken);
    DistinctCount(skipped);
    var all := ElementsOf(taken) + ElementsOf(skipped);
    assert ElementsOf(taken) * ElementsOf(skipped) == {};
    assert |all| == n;
    SubsetOfSameSize(all, Below(n));
    forall p: nat ensures p < n <==> p in taken || p in skipped {
      assert p in all <==> p in Below(n);
    }
  }

  ghost function Below(n: nat): (s: set<nat>)
    ensures |s| == n && forall p: nat :: p in s <==> p < n
  {
    if n == 0 then {} else Below(n - 1) + {n - 1}
  }

  // ---------------------------------------------------------------- what a get delivers

  /** Element `p` of the history stands in cell `p` modulo the length, as long as the last len-1 puts
      include it; the reader is never more than that behind. */
  ghost predicate ValueInv(s: State) {
    && 2 <= |s.cells|
    && s.writeX == |s.history| % |s.cells| && s.readX == s.position % |s.cells|
    && (forall p: nat :: |s.history| - |s.cells| < p < |s.history| ==> CellHolds(s.cells, s.history, p))
    && (s.wpc.WAdvance? ==> s.cells[s.writeX] == s.wpc.val)
    && |s.history| - s.position < |s.cells|
    && (s.rpc.RTestReadX? ==> s.rpc.x == s.rpc.position % |s.cells|)
    && (s.rpc.RTestWriteX? ==> s.rpc.w == s.rpc.puts % |s.cells| && s.rpc.puts <= |s.history|)
    && (s.wpc.WCount? || s.wpc.WStore? || s.wpc.WAdvance? ==> |s.history| - s.position < |s.cells| - 1)
    && (forall d <- s.deliveries :: d.available ==> d.position < |s.history| && d.value == s.history[d.position])
  }

  ghost predicate CellHolds(cells: seq<int>, history: seq<int>, p: nat) {
    p < |history| && cells != [] && cells[p % |cells|] == history[p]
  }

  lemma NextRemainder(n: nat, w: nat)
    requires 0 < w
    ensures Advance(n % w, w) == (n + 1) % w
  {
    var q := n / w;
    assert n == q * w + n % w;
    if n % w < w - 1 {
      RemainderIs(n + 1, w, q, n % w + 1);
    } else {
      RemainderIs(n + 1, w, q + 1, 0);
    }
  }

  lemma DifferentRemainders(p: nat, n: nat, w: nat)
    requires p < n < p + w
    ensures p % w != n % w
  {
    if p % w == n % w {
      var i, j := p / w, n / w;
      assert p == i * w + p % w && n == j * w + n % w;
      if j <= i {
        MultiplyMonotone(j, i, w);
        assert false;
      } else {
        MultiplyMonotone(i + 1, j, w);
        assert false;
      }
    }
  }

  lemma SameRemainder(p: nat, w: nat)
    requires 0 < w
    ensures (p + w) % w == p % w
  {
    var q := p / w;
    assert p == q * w + p % w;
    RemainderIs(p + w, w, q + 1, p % w);
  }

  lemma StoreKeepsCells(s: State)
    requires ValueInv(s) && s.wpc.WStore?
    ensures var after := s.cells[s.writeX := s.wpc.val];
            forall p: nat :: |s.history| - |s.cells| < p < |s.history| ==> CellHolds(after, s.history, p)
  {
    var after := s.cells[s.writeX := s.wpc.val];
    forall p: nat | |s.history| - |s.cells| < p < |s.history| ensures CellHolds(after, s.history, p) {
      assert CellHolds(s.cells, s.history, p);
      DifferentRemainders(p, |s.history|, |s.cells|);
    }
  }

  lemma AdvanceKeepsCells(s: State)
    requires ValueInv(s) && s.wpc.WAdvance?
    ensures var longer := s.history + [s.wpc.val];
            forall p: nat :: |longer| - |s.cells| < p < |longer| ==> CellHolds(s.cells, longer, p)
  {
    var longer := s.history + [s.wpc.val];
    forall p: nat | |longer| - |s.cells| < p < |longer| ensures CellHolds(s.cells, longer, p) {
      if p < |s.history| {
        assert CellHolds(s.cells, s.history, p);
      }
    }
  }

  predicate IsPush(a: Action) {
    a.PutTest? || a.PushLoad? || a.PushStore? || a.PushCount?
  }

  lemma PushValueStep(s: State, a: Action)
    requires CountInv(s) && ValueInv(s) && Enabled(s, a) && IsPush(a)
    ensures ValueInv(Apply(s, a))
  {
    NextRemainder(s.position, |s.cells|);
    NextRemainder(|s.history|, |s.cells|);
    SameRemainder(s.position, |s.cells|);
  }

  lemma PutValueStep(s: State, a: Action)
    requires ValueInv(s) && Enabled(s, a) && (a.PutStart? || a.PutStore? || a.PutAdvance?)
    ensures ValueInv(Apply(s, a))
  {
    if a.PutStore? {
      StoreKeepsCells(s);
    } else if a.PutAdvance? {
      NextRemainder(|s.history|, |s.cells|);
      AdvanceKeepsCells(s);
    }
  }

  lemma CopyValueStep(s: State)
    requires CountInv(s) && ValueInv(s) && Enabled(s, GetCopy)
    ensures ValueInv(Apply(s, GetCopy))
  {
    if s.position < |s.history| {
      assert CellHolds(s.cells, s.history, s.position);
    }
  }

  lemma GetValueStep(s: State, a: Action)
    requires CountInv(s) && ValueInv(s) && Enabled(s, a) && IsGet(a) && !a.GetCopy?
    ensures ValueInv(Apply(s, a))
  {
    NextRemainder(s.position, |s.cells|);
  }

  lemma ValueStep(s: State, a: Action)
    requires CountInv(s) && ValueInv(s) && Enabled(s, a)
    ensures ValueInv(Apply(s, a))
  {
    if IsPush(a) {
      PushValueStep(s, a);
    } else if a.PutStart? || a.PutStore? || a.PutAdvance? {
      PutValueStep(s, a);
    } else if a.GetCopy? {
      CopyValueStep(s);
    } else {
      GetValueStep(s, a);
    }
  }

  lemma {:induction false} ValueAfter(s: State, run: seq<Action>)
    requires CountInv(s) && ValueInv(s) && Legal(s, run) && NeverOverlapping(s, run)
    ensures ValueInv(After(s, run))
    decreases |run|
  {
    if run != [] {
      ValueStep(s, run[0]);
      CountStep(s, run[0]);
      ValueAfter(Apply(s, run[0]), run[1..]);
    }
  }

  /** Without overlap a get delivers the element it goes for, whatever the writer does to the cells
      meanwhile, if that element had been put. */
  lemma DeliversFromHistory(s: State, run: seq<Action>, i: nat)
    requires Init(s) && Legal(s, run) && NeverOverlapping(s, run) && i < |After(s, run).deliveries|
    ensures var e := After(s, run); var d := e.deliveries[i];
            d.available ==> d.position < |e.history| && d.value == e.history[d.position]
  {
    ValueAfter(s, run);
    assert After(s, run).deliveries[i] in After(s, run).deliveries;
  }

  /** The reader never runs ahead of the writer: it is pushed only while no get is under way, not even
      one that has only tested the fifo, and only over an element that has been put. */
  ghost predicate Calm(s: State, run: seq<Action>)
    requires Legal(s, run)
    decreases |run|
  {
    && (s.wpc.WPushing? ==> s.rpc.RIdle?)
    && (run == [] || ((run[0].PushLoad? ==> s.position < |s.history|) && Calm(Apply(s, run[0]), run[1..])))
  }

  ghost predicate CalmInv(s: State) {
    && CountInv(s) && ValueInv(s) && s.position <= |s.history|
    && (s.wpc.WPushing? ==> s.rpc.RIdle?)
    && (s.wpc.WPushing? || s.rpc.RFound? || InGet(s) ==> s.position < |s.history|)
    && (s.rpc.RTestReadX? ==> s.rpc.x == s.readX)
    && (s.rpc.RTestWriteX? ==> s.position <= s.rpc.puts)
    && (forall d <- s.deliveries :: d.available)
  }

  lemma CalmStep(s: State, a: Action)
    requires CalmInv(s) && Enabled(s, a) && (a.PushLoad? ==> s.position < |s.history|)
    requires Apply(s, a).wpc.WPushing? ==> Apply(s, a).rpc.RIdle?
    ensures CalmInv(Apply(s, a))
  {
    CountStep(s, a);
    ValueStep(s, a);
  }

  /** In such runs every get delivers an element of the history. */
  lemma {:induction false} CalmAfter(s: State, run: seq<Action>)
    requires CalmInv(s) && Legal(s, run) && Calm(s, run)
    ensures CalmInv(After(s, run))
    decreases |run|
  {
    if run != [] {
      var n := Apply(s, run[0]);
      assert Calm(n, run[1..]);
      CalmStep(s, run[0]);
      CalmAfter(n, run[1..]);
    }
  }

  /** ... in order, none twice, and none that is counted as lost. */
  lemma CalmRunsDeliver(s: State, run: seq<Action>, i: nat)
    requires Init(s) && Legal(s, run) && Calm(s, run) && i < |After(s, run).deliveries|
    ensures var e := After(s, run); var d := e.deliveries[i];
            d.position < |e.history| && d.value == e.history[d.position]
    ensures LostOrDelivered(After(s, run)) && NoDuplicates(After(s, run).taken)
  {
    CalmAfter(s, run);
    assert After(s, run).deliveries[i] in After(s, run).deliveries;
  }

  // ---------------------------------------------------------------- what the test says

  lemma SameCellIff(p: nat, n: nat, w: nat)
    requires 0 < w
    ensures p % w == n % w <==> (n - p) % w == 0
  {
    var i, j := p / w, n / w;
    assert p == i * w + p % w && n == j * w + n % w;
    assert n - p == (j - i) * w + (n % w - p % w);
    if p % w <= n % w {
      RemainderIs(n - p, w, j - i, n % w - p % w);
    } else {
      RemainderIs(n - p, w, j - i - 1, w + n % w - p % w);
    }
  }

  /** The elements put at the load of the writer's index, less those behind the reader at the load of
      its own. */
  ghost function SeenByTest(s: State): int
    requires s.rpc.RTestReadX? || s.rpc.RTestWriteX?
  {
    if s.rpc.RTestReadX? then |s.history| - s.rpc.position else s.rpc.puts - s.position
  }

  /** A get says the fifo is empty exactly if the difference of two moments is a multiple of the length. */
  lemma TestSaysEmptyIff(s: State, run: seq<Action>)
    requires Init(s) && Legal(s, run) && NeverOverlapping(s, run) && Enabled(After(s, run), GetTest)
    ensures var e := After(s, run);
            Apply(e, GetTest).rpc.RIdle? <==> SeenByTest(e) % |e.cells| == 0
  {
    ValueAfter(s, run);
    var e := After(s, run);
    if e.rpc.RTestReadX? {
      SameCellIff(e.rpc.position, |e.history|, |e.cells|);
    } else {
      SameCellIff(e.position, e.rpc.puts, |e.cells|);
    }
  }

  /** So it says truly whether the fifo is empty now, if the reader's index was loaded first and has not
      been pushed since, or was empty then, if the writer's was and no push has gone beyond it. */
  lemma TestIsRight(s: State, run: seq<Action>)
    requires Init(s) && Legal(s, run) && NeverOverlapping(s, run) && Enabled(After(s, run), GetTest)
    requires var e := After(s, run);
             if e.rpc.RTestReadX? then e.rpc.position == e.position <= |e.history|
             else e.position <= e.rpc.puts
    ensures var e := After(s, run);
            Apply(e, GetTest).rpc.RIdle? <==> e.position == if e.rpc.RTestReadX? then |e.history| else e.rpc.puts
  {
    TestSaysEmptyIff(s, run);
    ValueAfter(s, run);
    SmallRemainder(SeenByTest(After(s, run)), |After(s, run).cells|);
  }

  lemma SmallRemainder(n: nat, w: nat)
    requires n < w
    ensures n % w == n
  {
  }

  lemma MultipleUpTo(d: nat, w: nat)
    requires 1 <= d <= w
    ensures d % w == 0 <==> d == w
  {
    if d < w {
      SmallRemainder(d, w);
    } else {
      RemainderIs(d, w, 1, 0);
    }
  }

  lemma WriterFindsReader(s: State)
    requires ValueInv(s)
    ensures Advance(s.writeX, |s.cells|) == s.readX <==> (|s.history| + 1 - s.position) % |s.cells| == 0
  {
    NextRemainder(|s.history|, |s.cells|);
    SameCellIff(s.position, |s.history| + 1, |s.cells|);
  }

  /** A put pushes the reader exactly if, at that moment, the reader's position and one behind the last
      element are a multiple of the length apart: when len-1 elements are before it, or a reader ahead of
      the writer is as far from it as that. */
  lemma PushesIff(s: State, run: seq<Action>)
    requires Init(s) && Legal(s, run) && NeverOverlapping(s, run) && Enabled(After(s, run), PutTest)
    ensures var e := After(s, run); var n := Apply(e, PutTest);
            && (n.wpc.WPush? <==> (|e.history| + 1 - e.position) % |e.cells| == 0)
            && (e.position <= |e.history| ==> (n.wpc.WPush? <==> |e.history| - e.position == |e.cells| - 1))
  {
    ValueAfter(s, run);
    var e := After(s, run);
    WriterFindsReader(e);
    if e.position <= |e.history| {
      MultipleUpTo(|e.history| + 1 - e.position, |e.cells|);
    }
  }

  // ---------------------------------------------------------------- what the callers of put pass

  /** The argument of the put under way. */
  function Argument(call: int, a: Action): int {
    if a.PutStart? then a.val else call
  }

  /** The arguments of the puts that are done. */
  function ArgumentsPut(run: seq<Action>, call: int): seq<int> {
    if run == [] then []
    else (if run[0].PutAdvance? then [call] else []) + ArgumentsPut(run[1..], Argument(call, run[0]))
  }

  lemma ArgumentStep(s: State, a: Action, call: int)
    requires Enabled(s, a) && (!s.wpc.WIdle? ==> s.wpc.val == call)
    ensures var n := Apply(s, a);
            && (!n.wpc.WIdle? ==> n.wpc.val == Argument(call, a))
            && n.history == s.history + if a.PutAdvance? then [call] else []
  {
  }

  lemma {:induction false} HistoryAfter(s: State, run: seq<Action>, call: int)
    requires Legal(s, run) && (!s.wpc.WIdle? ==> s.wpc.val == call)
    ensures After(s, run).history == s.history + ArgumentsPut(run, call)
    decreases |run|
  {
    if run != [] {
      ArgumentStep(s, run[0], call);
      HistoryAfter(Apply(s, run[0]), run[1..], Argument(call, run[0]));
    }
  }

  /** The history is what the callers of `put` passed, in every run, overlapping or not. */
  lemma HistoryIsArguments(s: State, run: seq<Action>)
    requires Init(s) && Legal(s, run)
    ensures After(s, run).history == ArgumentsPut(run, 0)
  {
    HistoryAfter(s, run, 0);
  }

  // ---------------------------------------------------------------- delivering what was never put

  ghost predicate ReaderOnly(run: seq<Action>) {
    forall i :: 0 <= i < |run| ==> IsGet(run[i])
  }

  /** A get of this continuation delivers something that has not been put. */
  ghost predicate GoesAstray(s: State, more: seq<Action>) {
    && Legal(s, more) && ReaderOnly(more)
    && exists i :: |s.deliveries| <= i < |After(s, more).deliveries| && !After(s, more).deliveries[i].available
  }

  /** The reader is ahead of the writer, and the next test will find the fifo not empty. */
  predicate AheadIdle(s: State) {
    s.position > |s.history| && s.readX != s.writeX
  }

  /** A get past its test needs only to have caught up with the writer; one that has copied its cell
      counts as one element further. */
  predicate WillStray(s: State) {
    match s.rpc
    case RIdle => AheadIdle(s)
    case RTestReadX(_, _) => if TestFails(s) then AheadIdle(s) else s.position >= |s.history|
    case RTestWriteX(_, _) => if TestFails(s) then AheadIdle(s) else s.position >= |s.history|
    case RFound => s.position >= |s.history|
    case RCopy(_, _) => s.position >= |s.history|
    case RCopied(_) => s.position >= |s.history| && Advance(s.readX, |s.cells|) != s.writeX
    case RStore(_, _) => s.position >= |s.history| && Advance(s.readX, |s.cells|) != s.writeX
  }

  /** What holds while the writer rests, not in the middle of a push. */
  ghost predicate WriterRests(s: State) {
    && CountInv(s) && !s.wpc.WPushing? && 2 <= |s.cells|
    && s.readX == s.position % |s.cells| && s.writeX == |s.history| % |s.cells|
  }

  lemma RestingStep(s: State, a: Action)
    requires WriterRests(s) && Enabled(s, a) && IsGet(a)
    ensures WriterRests(Apply(s, a))
    ensures !WillStray(s) ==> !WillStray(Apply(s, a))
    ensures !WillStray(s) && a.GetCopy? ==> s.position < |s.history|
  {
    CountStep(s, a);
    NextRemainder(s.position, |s.cells|);
  }

  /** Deliveries from the `n`-th on were of elements that had been put, and so will the next ones be. */
  ghost predicate OnTrack(s: State, n: nat) {
    && WriterRests(s) && !WillStray(s)
    && forall i :: n <= i < |s.deliveries| ==> s.deliveries[i].available
  }

  lemma {:induction false} OnTrackAfter(s: State, more: seq<Action>, n: nat)
    requires OnTrack(s, n) && Legal(s, more) && ReaderOnly(more)
    ensures OnTrack(After(s, more), n)
    decreases |more|
  {
    if more != [] {
      RestingStep(s, more[0]);
      OnTrackAfter(Apply(s, more[0]), more[1..], n);
    }
  }

  /** How far the reader is from copying the next cell. */
  function Rank(s: State): nat {
    match s.rpc
    case RCopied(_) => 6
    case RStore(_, _) => 5
    case RTestReadX(_, _) => if TestFails(s) then 5 else 3
    case RTestWriteX(_, _) => if TestFails(s) then 5 else 3
    case RIdle => 4
    case RFound => 2
    case RCopy(_, _) => 1
  }

  function NextOf(s: State): Action {
    match s.rpc
    case RIdle => GetTestReadX
    case RTestReadX(_, _) => GetTest
    case RTestWriteX(_, _) => GetTest
    case RFound => GetIndex
    case RCopy(_, _) => GetCopy
    case RCopied(_) => GetReload
    case RStore(_, _) => GetStore
  }

  lemma StrayingStep(s: State)
    requires WriterRests(s) && WillStray(s)
    ensures Enabled(s, NextOf(s)) && IsGet(NextOf(s)) && WriterRests(Apply(s, NextOf(s)))
    ensures var n := Apply(s, NextOf(s));
            if s.rpc.RCopy? then |n.deliveries| == |s.deliveries| + 1 && !n.deliveries[|s.deliveries|].available
            else n.deliveries == s.deliveries && WillStray(n) && Rank(n) < Rank(s)
  {
    RestingStep(s, NextOf(s));
  }

  lemma Prepend(s: State, a: Action, rest: seq<Action>)
    requires Enabled(s, a) && Legal(Apply(s, a), rest)
    ensures Legal(s, [a] + rest) && After(s, [a] + rest) == After(Apply(s, a), rest)
  {
    assert ([a] + rest)[1..] == rest;
  }

  lemma {:induction false} Strays(s: State) returns (more: seq<Action>)
    requires WriterRests(s) && WillStray(s)
    ensures GoesAstray(s, more)
    decreases Rank(s)
  {
    StrayingStep(s);
    var a, n := NextOf(s), Apply(s, NextOf(s));
    var rest := [];
    if !s.rpc.RCopy? {
      rest := Strays(n);
    }
    more := [a] + rest;
    Prepend(s, a, rest);
    if s.rpc.RCopy? {
      assert !After(s, more).deliveries[|s.deliveries|].available;
    }
  }

  /** After any run without overlap that does not stop in the middle of a push, the reader can go on to
      deliver what has not been put, by itself, exactly if its state says so. */
  lemma GoesAstrayIff(s: State, run: seq<Action>)
    requires Init(s) && Legal(s, run) && NeverOverlapping(s, run) && !After(s, run).wpc.WPushing?
    ensures var e := After(s, run); (exists more :: GoesAstray(e, more)) <==> WillStray(e)
  {
    CountAfter(s, run);
    ValueAfter(s, run);
    var e := After(s, run);
    if WillStray(e) {
      var more := Strays(e);
    } else {
      forall more | Legal(e, more) && ReaderOnly(more) ensures !GoesAstray(e, more) {
        OnTrackAfter(e, more, |e.deliveries|);
      }
    }
  }

  // ---------------------------------------------------------------- a run that loses the count

  lemma Extend(s: State, run: seq<Action>, a: Action)
    requires Legal(s, run) && Enabled(After(s, run), a)
    ensures Legal(s, run + [a]) && After(s, run + [a]) == Apply(After(s, run), a)
    decreases |run|
  {
    if run == [] {
      assert run + [a] == [a] && [a][1..] == [];
    } else {
      Extend(Apply(s, run[0]), run[1..], a);
      assert (run + [a])[1..] == run[1..] + [a];
    }
  }

  lemma PutWithRoom(s: State, run: seq<Action>, val: int) returns (longer: seq<Action>)
    requires Legal(s, run)
    requires var e := After(s, run);
             e.wpc.WIdle? && e.writeX < |e.cells| && e.readX < |e.cells| && Advance(e.writeX, |e.cells|) != e.readX
    ensures Legal(s, longer)
    ensures var e := After(s, run);
            After(s, longer) == e.(cells := e.cells[e.writeX := val], writeX := Advance(e.writeX, |e.cells|),
                                   history := e.history + [val])
  {
    longer := run;
    Extend(s, longer, PutStart(val));
    longer := longer + [PutStart(val)];
    Extend(s, longer, PutTest);
    longer := longer + [PutTest];
    Extend(s, longer, PutStore);
    longer := longer + [PutStore];
    Extend(s, longer, PutAdvance);
    longer := longer + [PutAdvance];
  }

  lemma TestNotEmpty(s: State, run: seq<Action>) returns (longer: seq<Action>)
    requires Legal(s, run)
    requires var e := After(s, run);
             e.rpc.RIdle? && e.writeX < |e.cells| && e.readX < |e.cells| && e.readX != e.writeX
    ensures Legal(s, longer) && After(s, longer) == After(s, run).(rpc := RFound)
  {
    Extend(s, run, GetTestReadX);
    longer := run + [GetTestReadX];
    Extend(s, longer, GetTest);
    longer := longer + [GetTest];
  }

  lemma GetOne(s: State, run: seq<Action>) returns (longer: seq<Action>)
    requires Legal(s, run)
    requires var e := After(s, run);
             e.rpc.RIdle? && e.writeX < |e.cells| && e.readX < |e.cells| && e.readX != e.writeX
    ensures Legal(s, longer)
    ensures var e := After(s, run);
            After(s, longer) == e.(readX := Advance(e.readX, |e.cells|), position := e.position + 1,
                                   taken := e.taken + [e.position],
                                   deliveries := e.deliveries + [Delivery(e.position, e.cells[e.readX], e.position < |e.history|)])
  {
    longer := TestNotEmpty(s, run);
    Extend(s, longer, GetIndex);
    longer := longer + [GetIndex];
    Extend(s, longer, GetCopy);
    longer := longer + [GetCopy];
    Extend(s, longer, GetReload);
    longer := longer + [GetReload];
    Extend(s, longer, GetStore);
    longer := longer + [GetStore];
  }

  /** A put that finds the reader in the way, up to that point. */
  lemma BeginPush(s: State, run: seq<Action>, val: int) returns (longer: seq<Action>)
    requires Legal(s, run)
    requires var e := After(s, run);
             e.wpc.WIdle? && e.writeX < |e.cells| && e.readX < |e.cells| && Advance(e.writeX, |e.cells|) == e.readX
    ensures Legal(s, longer) && After(s, longer) == After(s, run).(wpc := WPush(val))
  {
    Extend(s, run, PutStart(val));
    longer := run + [PutStart(val)];
    Extend(s, longer, PutTest);
    longer := longer + [PutTest];
  }

  lemma Push(s: State, run: seq<Action>) returns (longer: seq<Action>)
    requires Legal(s, run)
    requires var e := After(s, run); e.wpc.WPush? && e.writeX < |e.cells| && e.readX < |e.cells|
    ensures Legal(s, longer)
    ensures var e := After(s, run);
            After(s, longer) == e.(readX := Advance(e.readX, |e.cells|), position := e.position + 1,
                                   skipped := e.skipped + [e.position], wpc := WCount(e.wpc.val))
  {
    Extend(s, run, PushLoad);
    longer := run + [PushLoad];
    Extend(s, longer, PushStore);
    longer := longer + [PushStore];
  }

  lemma PutWithPush(s: State, run: seq<Action>, val: int) returns (longer: seq<Action>)
    requires Legal(s, run)
    requires var e := After(s, run);
             e.wpc.WIdle? && e.writeX < |e.cells| && e.readX < |e.cells| && Advance(e.writeX, |e.cells|) == e.readX
    ensures Legal(s, longer)
    ensures var e := After(s, run);
            After(s, longer) == e.(cells := e.cells[e.writeX := val], writeX := Advance(e.writeX, |e.cells|),
                                   history := e.history + [val], readX := Advance(e.readX, |e.cells|),
                                   position := e.position + 1, skipped := e.skipped + [e.position], lost := e.lost + 1)
  {
    longer := BeginPush(s, run, val);
    longer := Push(s, longer);
    Extend(s, longer, PushCount);
    longer := longer + [PushCount];
    Extend(s, longer, PutStore);
    longer := longer + [PutStore];
    Extend(s, longer, PutAdvance);
    longer := longer + [PutAdvance];
  }

  /** Three cells and two elements in them, and the writer has loaded the reader's index to push it. The
      reader now gets the first element, and the push then counts that element as lost. */
  lemma OverlapLosesCount() returns (s: State, run: seq<Action>)
    ensures Init(s) && Legal(s, run)
    ensures var e := After(s, run);
            && e.wpc.WStore? && e.rpc.RIdle? && e.lost == 1
            && e.deliveries == [Delivery(0, 7, true)] && e.position == 1 && !LostOrDelivered(e)
  {
    s := State([0, 0, 0], 0, 0, 0, WIdle, RIdle, [], 0, [], [], []);
    run := PutWithRoom(s, [], 7);
    run := PutWithRoom(s, run, 8);
    run := BeginPush(s, run, 9);
    Extend(s, run, PushLoad);
    run := run + [PushLoad];
    assert After(s, run) == State([7, 8, 0], 2, 0, 0, WPushing(9, 0, 0), RIdle, [7, 8], 0, [], [0], []);
    run := GetOne(s, run);
    Extend(s, run, PushStore);
    run := run + [PushStore];
    Extend(s, run, PushCount);
    run := run + [PushCount];
    assert After(s, run).taken[0] == After(s, run).skipped[0];
  }

  /** Two cells and one element in them, and a put that has found the reader in the way. */
  lemma FoundFull() returns (s: State, run: seq<Action>)
    ensures Init(s) && Legal(s, run)
    ensures After(s, run) == State([7, 0], 1, 0, 0, WPush(8), RIdle, [7], 0, [], [], [])
  {
    s := State([0, 0], 0, 0, 0, WIdle, RIdle, [], 0, [], [], []);
    run := PutWithRoom(s, [], 7);
    run := BeginPush(s, run, 8);
  }

  /** The reader empties the fifo, and only then does the push come: the reader is one ahead of the
      writer. */
  lemma LatePush() returns (s: State, run: seq<Action>, more: seq<Action>)
    ensures Init(s) && Legal(s, run) && NeverOverlapping(s, run)
    ensures After(s, run).rpc.RIdle? && After(s, run).position == |After(s, run).history| + 1
    ensures GoesAstray(After(s, run), more)
  {
    s, run := FoundFull();
    run := GetOne(s, run);
    run := Push(s, run);
    var e := After(s, run);
    assert e == State([7, 0], 1, 0, 0, WCount(8), RIdle, [7], 2, [0], [1], [Delivery(0, 7, true)]);
    LostOrDeliveredIff(s, run);
    GoesAstrayIff(s, run);
    more :| GoesAstray(e, more);
  }

  /** The push comes between the reader's test and its load of the index, and the reader, not ahead of
      the writer, delivers the next element although it has not been put. */
  lemma PushAfterTest() returns (s: State, run: seq<Action>)
    ensures Init(s) && Legal(s, run) && NeverOverlapping(s, run)
    ensures var e := After(s, run); e.position == |e.history| && e.deliveries == [Delivery(1, 0, false)]
  {
    s, run := FoundFull();
    run := TestNotEmpty(s, run);
    run := Push(s, run);
    assert After(s, run) == State([7, 0], 1, 1, 0, WCount(8), RFound, [7], 1, [], [0], []);
    Extend(s, run, GetIndex);
    run := run + [GetIndex];
    Extend(s, run, GetCopy);
    run := run + [GetCopy];
    LostOrDeliveredIff(s, run);
  }

  /** A put between the two loads of the test: the fifo is full and looks empty. */
  lemma FullLooksEmpty() returns (s: State, run: seq<Action>)
    ensures Init(s) && Legal(s, run) && NeverOverlapping(s, run) && Enabled(After(s, run), GetTest)
    ensures var e := After(s, run);
            e.wpc.WIdle? && |e.history| - e.position == |e.cells| - 1 && Apply(e, GetTest).rpc.RIdle?
  {
    s := State([0, 0], 0, 0, 0, WIdle, RIdle, [], 0, [], [], []);
    run := PutWithRoom(s, [], 7);
    Extend(s, run, GetTestReadX);
    run := run + [GetTestReadX];
    run := PutWithPush(s, run, 8);
    LostOrDeliveredIff(s, run);
  }
}
