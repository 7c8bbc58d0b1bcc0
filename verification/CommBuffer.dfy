/** The triple buffer between one writer and one reader, as a machine whose steps are single
    accesses to shared data: every cell copied, every pointer and flag written. */
module CommBuffer {
  import opened Common

  /** Where the writer is in `put`. */
  datatype WriterPc =
    | WIdle
    | WCopying(data: seq<int>, done: nat)  // `done` cells are in *writer
    | WPublished(swap: nat)                // reader points to the new value
    | WSwapped                             // writer points to the former reader slot
    | WRotating                            // has seen readingNow
    | WFlagging                            // newDataAvailable still to be set

  /** Where the reader is in `get`; `version` is the number of the value that was current when
      the pointer was loaded, `origins` the numbers of the values the cells copied so far were part
      of. The program has neither. */
  datatype ReaderPc =
    | RIdle
    | RChecked                                          // getOnlyIfNewData has found newDataAvailable set
    | RCleared                                          // newDataAvailable reset
    | RReading                                          // readingNow set
    | RCopying(slot: nat, copy: seq<int>, version: nat, origins: seq<nat>)

  /** What a completed `get` delivered. */
  datatype Get = Get(version: nat, copy: seq<int>)

  /** `published` holds every value `reader` has ever pointed to, the initial one first; it and
      `lastGet` are history, the other fields are the program's. */
  datatype State = State(
    slots: seq<seq<int>>, writer: nat, reader: nat, intermediate: nat,
    readingNow: bool, newDataAvailable: bool,
    wpc: WriterPc, rpc: ReaderPc,
    published: seq<seq<int>>, lastGet: Option<Get>)

  /** Publications since the reader loaded its pointer. */
  function Since(s: State): int
    requires s.rpc.RCopying?
  {
    |s.published| - 1 - s.rpc.version
  }

  /** Every third put since then goes into the slot being read: how many of them have stored cell
      `k` so far, counted by the steps taken and not by what the cells hold. */
  function TimesStored(s: State, k: nat): nat
    requires s.rpc.RCopying? && s.rpc.version < |s.published|
  {
    Since(s) / 3 + if Since(s) % 3 == 2 && s.wpc.WCopying? && k < s.wpc.done then 1 else 0
  }

  /** The number of the put that stored cell `k` of the slot being read last. */
  function Origin(s: State, k: nat): nat
    requires s.rpc.RCopying? && s.rpc.version < |s.published|
  {
    s.rpc.version + 3 * TimesStored(s, k)
  }

  /** Everything put so far, the value being copied at last. */
  function Puts(s: State): seq<seq<int>> {
    if s.wpc.WCopying? then s.published + [s.wpc.data] else s.published
  }

  datatype Action =
    | PutStart(data: seq<int>) | PutCell | PutPublish | PutSwap | PutTest | PutRotate | PutFlag
    | GetCheck | GetStart | GetMark | GetLoad | GetCell | GetUnmark

  ghost predicate Enabled(s: State, size: nat, a: Action) {
    match a
    case PutStart(data) => s.wpc.WIdle? && |data| == size
    case PutCell => s.wpc.WCopying? && s.wpc.done < size
    case PutPublish => s.wpc.WCopying? && s.wpc.done == size
    case PutSwap => s.wpc.WPublished?
    case PutTest => s.wpc.WSwapped?
    case PutRotate => s.wpc.WRotating?
    case PutFlag => s.wpc.WFlagging?
    case GetCheck => s.rpc.RIdle?
    case GetStart => s.rpc.RIdle? || s.rpc.RChecked?
    case GetMark => s.rpc.RCleared?
    case GetLoad => s.rpc.RReading?
    case GetCell => s.rpc.RCopying? && |s.rpc.copy| < size
    case GetUnmark => s.rpc.RCopying? && |s.rpc.copy| == size
  }

  ghost predicate Shape(s: State, size: nat) {
    && |s.slots| == 3 && (forall i :: 0 <= i < 3 ==> |s.slots[i]| == size)
    && s.writer < 3 && s.reader < 3 && s.intermediate < 3
    && (s.wpc.WCopying? ==> |s.wpc.data| == size && s.wpc.done <= size)
    && (s.wpc.WPublished? ==> s.wpc.swap < 3)
    && (s.rpc.RCopying? ==> s.rpc.slot < 3 && |s.rpc.copy| <= size && s.rpc.version < |s.published|)
    && (s.rpc.RCopying? ==> |s.rpc.origins| == |s.rpc.copy|)
    && 0 < |s.published|
  }

  ghost function Apply(s: State, size: nat, a: Action): State
    requires Shape(s, size) && Enabled(s, size, a)
  {
    match a
    case PutStart(data) => s.(wpc := WCopying(data, 0))
    case PutCell =>
      var k := s.wpc.done;
      s.(slots := s.slots[s.writer := s.slots[s.writer][k := s.wpc.data[k]]], wpc := WCopying(s.wpc.data, k + 1))
    case PutPublish =>
      s.(reader := s.writer, wpc := WPublished(s.reader), published := s.published + [s.wpc.data])
    case PutSwap => s.(writer := s.wpc.swap, wpc := WSwapped)
    case PutTest => s.(wpc := if s.readingNow then WRotating else WFlagging)
    case PutRotate => s.(writer := s.intermediate, intermediate := s.writer, wpc := WFlagging)
    case PutFlag => s.(newDataAvailable := true, wpc := WIdle)
    case GetCheck => s.(rpc := if s.newDataAvailable then RChecked else RIdle)
    case GetStart => s.(newDataAvailable := false, rpc := RCleared)
    case GetMark => s.(readingNow := true, rpc := RReading)
    case GetLoad => s.(rpc := RCopying(s.reader, [], |s.published| - 1, []))
    case GetCell =>
      var k := |s.rpc.copy|;
      s.(rpc := s.rpc.(copy := s.rpc.copy + [s.slots[s.rpc.slot][k]], origins := s.rpc.origins + [Origin(s, k)]))
    case GetUnmark =>
      s.(readingNow := false, rpc := RIdle, lastGet := Some(Get(s.rpc.version, s.rpc.copy)))
  }

  ghost predicate Init(s: State, size: nat) {
    && Shape(s, size)
    && s.writer == 0 && s.reader == 1 && s.intermediate == 2
    && !s.readingNow && !s.newDataAvailable
    && s.wpc.WIdle? && s.rpc.RIdle?
    && s.published == [s.slots[1]] && s.lastGet.None?
  }

  // ---------------------------------------------------------------- invariant

  predicate Permutation(a: nat, b: nat, c: nat) {
    a < 3 && b < 3 && c < 3 && a != b && a != c && b != c
  }

  /** The three pointers name the three slots, but for the moment between the two halves of the
      swap, when the slot given up is in the writer's local variable. */
  ghost predicate SlotsInv(s: State) {
    if s.wpc.WPublished? then s.writer == s.reader && Permutation(s.wpc.swap, s.reader, s.intermediate)
    else Permutation(s.writer, s.reader, s.intermediate)
  }

  /** The published slot holds the last published value, the writer's slot what has been copied. */
  ghost predicate ContentInv(s: State, size: nat)
    requires Shape(s, size)
  {
    && s.slots[s.reader] == s.published[|s.published| - 1]
    && (forall v <- s.published :: |v| == size)
    && (s.wpc.WCopying? ==> s.slots[s.writer][..s.wpc.done] == s.wpc.data[..s.wpc.done])
  }

  /** The writer has finished moving its pointers after the last publication. */
  predicate Settled(s: State) {
    s.wpc.WIdle? || s.wpc.WCopying? || s.wpc.WFlagging?
  }

  /** Where the slot being read is: the pointers pass it round in turns of three publications. */
  ghost predicate ReadSlotInv(s: State)
    requires s.rpc.RCopying? && s.rpc.version < |s.published|
  {
    var slot, turn := s.rpc.slot, Since(s) % 3;
    if turn == 0 then slot == s.reader
    else if Settled(s) then slot == if turn == 1 then s.intermediate else s.writer
    else if turn == 2 then slot == s.intermediate
    else slot == if s.wpc.WPublished? then s.wpc.swap else s.writer
  }

  /** No third put has begun to write since the pointer was loaded. */
  predicate BeforeThirdPut(s: State)
    requires s.rpc.RCopying?
  {
    Since(s) < 2 || (Since(s) == 2 && (s.wpc.WCopying? ==> s.wpc.done == 0))
  }

  ghost predicate ReadInv(s: State) {
    && (s.rpc.RCopying? || s.rpc.RReading? <==> s.readingNow)
    && (s.rpc.RCopying? ==> s.rpc.version < |s.published| && ReadSlotInv(s))
  }

  /** Every cell of the slot being read, and of the copy, is that of the put it is said to be from;
      no cell was copied from a put later than the one that has stored it last. */
  ghost predicate OriginInv(s: State, size: nat)
    requires Shape(s, size)
  {
    s.rpc.RCopying? ==>
      && (forall k :: 0 <= k < size ==> HasCell(Puts(s), Origin(s, k), k, s.slots[s.rpc.slot][k]))
      && (forall k :: 0 <= k < |s.rpc.copy| ==>
            HasCell(Puts(s), s.rpc.origins[k], k, s.rpc.copy[k]) && s.rpc.version <= s.rpc.origins[k] <= Origin(s, k))
  }

  predicate HasCell(puts: seq<seq<int>>, n: nat, k: nat, x: int) {
    n < |puts| && k < |puts[n]| && puts[n][k] == x
  }

  /** Why `newDataAvailable` may be false. */
  ghost predicate FlagInv(s: State)
    requires 0 < |s.published|
  {
    var last := |s.published| - 1;
    || s.newDataAvailable
    || s.wpc.WPublished? || s.wpc.WSwapped? || s.wpc.WRotating? || s.wpc.WFlagging?
    || s.rpc.RCleared? || s.rpc.RReading?
    || (s.rpc.RCopying? && s.rpc.version == last)
    || (s.rpc.RIdle? && (last == 0 || s.lastGet == Some(Get(last, s.published[last]))))
  }

  ghost predicate Inv(s: State, size: nat) {
    Shape(s, size) && SlotsInv(s) && ContentInv(s, size) && ReadInv(s) && OriginInv(s, size) && FlagInv(s)
  }

  lemma SlotsStep(s: State, size: nat, a: Action)
    requires Shape(s, size) && SlotsInv(s) && Enabled(s, size, a)
    ensures Shape(Apply(s, size, a), size) && SlotsInv(Apply(s, size, a))
  {
  }

  lemma ContentStep(s: State, size: nat, a: Action)
    requires Shape(s, size) && SlotsInv(s) && ContentInv(s, size) && Enabled(s, size, a)
    requires Shape(Apply(s, size, a), size)
    ensures ContentInv(Apply(s, size, a), size)
  {
  }

  lemma ReadStep(s: State, size: nat, a: Action)
    requires Shape(s, size) && SlotsInv(s) && ReadInv(s) && Enabled(s, size, a)
    ensures ReadInv(Apply(s, size, a))
  {
  }

  /** A cell stored by the writer, of whatever slot. */
  lemma OriginCell(s: State, size: nat, k: nat)
    requires Shape(s, size) && SlotsInv(s) && ContentInv(s, size) && ReadInv(s) && OriginInv(s, size)
    requires s.rpc.RCopying? && s.wpc.WCopying? && s.wpc.done < size && k < size
    requires Shape(Apply(s, size, PutCell), size)
    ensures var n := Apply(s, size, PutCell);
            && Origin(s, k) <= Origin(n, k)
            && HasCell(Puts(n), Origin(n, k), k, n.slots[n.rpc.slot][k])
  {
    var n := Apply(s, size, PutCell);
    assert Puts(n) == Puts(s);
    assert HasCell(Puts(s), Origin(s, k), k, s.slots[s.rpc.slot][k]);
    if s.writer == s.rpc.slot && k == s.wpc.done {
      assert Since(s) % 3 == 2;
      assert Origin(n, k) == |s.published|;
    } else {
      assert Origin(n, k) == Origin(s, k);
    }
  }

  /** What a step other than `PutCell` and `GetLoad` does to the origin of a cell. */
  lemma OriginKept(s: State, size: nat, a: Action, k: nat)
    requires Shape(s, size) && SlotsInv(s) && ReadInv(s) && Enabled(s, size, a)
    requires s.rpc.RCopying? && !a.PutCell? && Apply(s, size, a).rpc.RCopying? && k < size
    requires Shape(Apply(s, size, a), size)
    ensures var n := Apply(s, size, a);
            && Origin(n, k) == Origin(s, k) && n.rpc.version == s.rpc.version
            && n.slots == s.slots && n.rpc.slot == s.rpc.slot && Puts(s) <= Puts(n)
  {
  }

  lemma OriginStep(s: State, size: nat, a: Action)
    requires Shape(s, size) && SlotsInv(s) && ContentInv(s, size) && ReadInv(s) && OriginInv(s, size) && Enabled(s, size, a)
    requires Shape(Apply(s, size, a), size) && ReadInv(Apply(s, size, a))
    ensures OriginInv(Apply(s, size, a), size)
  {
    var n := Apply(s, size, a);
    if n.rpc.RCopying? && !s.rpc.RCopying? {
      assert a.GetLoad?;
      var last := s.published[|s.published| - 1];
      assert last in s.published && |last| == size;
    } else if n.rpc.RCopying? {
      forall k | 0 <= k < size
        ensures Origin(s, k) <= Origin(n, k) && HasCell(Puts(n), Origin(n, k), k, n.slots[n.rpc.slot][k])
      {
        if a.PutCell? {
          OriginCell(s, size, k);
        } else {
          OriginKept(s, size, a, k);
          assert HasCell(Puts(s), Origin(s, k), k, s.slots[s.rpc.slot][k]);
        }
      }
      forall k | 0 <= k < |n.rpc.copy|
        ensures HasCell(Puts(n), n.rpc.origins[k], k, n.rpc.copy[k]) && n.rpc.version <= n.rpc.origins[k] <= Origin(n, k)
      {
        CopiedCell(s, size, a, k);
      }
    }
  }

  lemma CopiedCell(s: State, size: nat, a: Action, k: nat)
    requires Shape(s, size) && SlotsInv(s) && ContentInv(s, size) && ReadInv(s) && OriginInv(s, size) && Enabled(s, size, a)
    requires Shape(Apply(s, size, a), size) && s.rpc.RCopying? && Apply(s, size, a).rpc.RCopying?
    requires k < |Apply(s, size, a).rpc.copy| && Origin(s, k) <= Origin(Apply(s, size, a), k)
    ensures var n := Apply(s, size, a);
            HasCell(Puts(n), n.rpc.origins[k], k, n.rpc.copy[k]) && n.rpc.version <= n.rpc.origins[k] <= Origin(n, k)
  {
    var n := Apply(s, size, a);
    assert Puts(s) <= Puts(n);
    if k < |s.rpc.copy| {
      assert HasCell(Puts(s), s.rpc.origins[k], k, s.rpc.copy[k]);
    } else {
      assert HasCell(Puts(s), Origin(s, k), k, s.slots[s.rpc.slot][k]);
    }
  }

  /** A complete copy whose cells all are those of the value that was current is that value. */
  lemma WholeCopyIff(s: State, size: nat)
    requires Inv(s, size) && s.rpc.RCopying? && |s.rpc.copy| == size
    ensures |s.published[s.rpc.version]| == size
    ensures forall k :: 0 <= k < size ==> HasCell(Puts(s), s.rpc.origins[k], k, s.rpc.copy[k])
    ensures s.rpc.copy == s.published[s.rpc.version] <==>
            forall k :: 0 <= k < size ==> HasCell(Puts(s), s.rpc.origins[k], k, s.published[s.rpc.version][k])
  {
    var v := s.published[s.rpc.version];
    assert v in s.published;
    if forall k :: 0 <= k < size ==> HasCell(Puts(s), s.rpc.origins[k], k, v[k]) {
      forall k | 0 <= k < size ensures s.rpc.copy[k] == v[k] {
        assert HasCell(Puts(s), s.rpc.origins[k], k, s.rpc.copy[k]) && HasCell(Puts(s), s.rpc.origins[k], k, v[k]);
      }
    }
  }

  /** ... in particular when every cell was copied before a later put stored it. */
  lemma WholeCopy(s: State, size: nat)
    requires Inv(s, size) && s.rpc.RCopying? && |s.rpc.copy| == size
    requires forall k :: 0 <= k < size ==> s.rpc.origins[k] == s.rpc.version
    ensures s.rpc.copy == s.published[s.rpc.version]
  {
    WholeCopyIff(s, size);
    forall k | 0 <= k < size ensures HasCell(Puts(s), s.rpc.origins[k], k, s.published[s.rpc.version][k]) {
      assert Puts(s)[s.rpc.version] == s.published[s.rpc.version];
    }
  }

  lemma FlagStep(s: State, size: nat, a: Action)
    requires Inv(s, size) && Enabled(s, size, a)
    ensures FlagInv(Apply(s, size, a))
  {
    if a.GetUnmark? && s.rpc.version == |s.published| - 1 {
      assert Since(s) == 0;
      WholeCopy(s, size);
    }
  }

  lemma InvStep(s: State, size: nat, a: Action)
    requires Inv(s, size) && Enabled(s, size, a)
    ensures Inv(Apply(s, size, a), size)
  {
    SlotsStep(s, size, a);
    ContentStep(s, size, a);
    ReadStep(s, size, a);
    OriginStep(s, size, a);
    FlagStep(s, size, a);
  }

  // ---------------------------------------------------------------- runs

  ghost predicate Legal(s: State, size: nat, run: seq<Action>)
    decreases |run|
  {
    Shape(s, size) && (run == [] || (Enabled(s, size, run[0]) && Legal(Apply(s, size, run[0]), size, run[1..])))
  }

  ghost function After(s: State, size: nat, run: seq<Action>): State
    requires Legal(s, size, run)
    decreases |run|
  {
    if run == [] then s else After(Apply(s, size, run[0]), size, run[1..])
  }

  lemma {:induction false} InvAfter(s: State, size: nat, run: seq<Action>)
    requires Inv(s, size) && Legal(s, size, run)
    ensures Inv(After(s, size, run), size)
    decreases |run|
  {
    if run != [] {
      InvStep(s, size, run[0]);
      InvAfter(Apply(s, size, run[0]), size, run[1..]);
    }
  }

  // ---------------------------------------------------------------- what the buffer promises

  /** Between puts the three pointers name the three slots, and the reader's pointer always stands
      at the complete last published value. */
  lemma SlotsStayApart(s: State, size: nat, run: seq<Action>)
    requires Init(s, size) && Legal(s, size, run)
    ensures var e := After(s, size, run);
            && (e.wpc.WIdle? ==> Permutation(e.writer, e.reader, e.intermediate))
            && e.reader < |e.slots| && 0 < |e.published|
            && e.slots[e.reader] == e.published[|e.published| - 1]
  {
    InvAfter(s, size, run);
  }

  /** What a get delivers, whatever the writer does meanwhile: cell by cell the value of the put that
      had stored the cell last when it was copied; so it is the value that was current when the
      pointer was loaded exactly if those cells are equal to its cells. */
  lemma GetDelivers(s: State, size: nat, run: seq<Action>)
    requires Init(s, size) && Legal(s, size, run) && Enabled(After(s, size, run), size, GetUnmark)
    ensures var e := After(s, size, run); var got := e.rpc.copy;
            && Shape(e, size)
            && Apply(e, size, GetUnmark).lastGet == Some(Get(e.rpc.version, got))
            && |e.published[e.rpc.version]| == |got| == size
            && (forall k :: 0 <= k < size ==> HasCell(Puts(e), e.rpc.origins[k], k, got[k]))
            && (got == e.published[e.rpc.version] <==>
                forall k :: 0 <= k < size ==> HasCell(Puts(e), e.rpc.origins[k], k, e.published[e.rpc.version][k]))
  {
    InvAfter(s, size, run);
    WholeCopyIff(After(s, size, run), size);
  }

  /** The writer has stored the cell the reader is to copy next since the pointer was loaded. */
  predicate Overtaken(s: State)
    requires s.rpc.RCopying?
  {
    var k := |s.rpc.copy|;
    Since(s) >= 3 || (Since(s) == 2 && s.wpc.WCopying? && k < s.wpc.done)
  }

  /** Exactly then the next cell copied is one of a later put than the current value's. */
  lemma OvertakenIff(s: State, size: nat, a: Action)
    requires Shape(s, size) && Enabled(s, size, a) && a.GetCell?
    ensures var n := Apply(s, size, a);
            n.rpc.origins[|s.rpc.copy|] != n.rpc.version <==> Overtaken(s)
  {
  }

  /** No cell was copied after the writer had stored it again. */
  ghost predicate NeverOvertaken(s: State, size: nat, run: seq<Action>)
    requires Legal(s, size, run)
    decreases |run|
  {
    run == [] || ((run[0].GetCell? ==> !Overtaken(s)) && NeverOvertaken(Apply(s, size, run[0]), size, run[1..]))
  }

  ghost predicate AllCurrent(s: State) {
    s.rpc.RCopying? ==> forall k :: 0 <= k < |s.rpc.origins| ==> s.rpc.origins[k] == s.rpc.version
  }

  lemma {:induction false} CurrentAfter(s: State, size: nat, run: seq<Action>)
    requires Legal(s, size, run) && NeverOvertaken(s, size, run) && AllCurrent(s)
    ensures AllCurrent(After(s, size, run))
    decreases |run|
  {
    if run != [] {
      CurrentAfter(Apply(s, size, run[0]), size, run[1..]);
    }
  }

  /** One get is under way all the time. */
  ghost predicate WithinGet(s: State, size: nat, run: seq<Action>)
    requires Legal(s, size, run)
    decreases |run|
  {
    s.rpc.RCopying? && (run == [] || WithinGet(Apply(s, size, run[0]), size, run[1..]))
  }

  lemma {:induction false} NotCurrentAfter(s: State, size: nat, run: seq<Action>)
    requires Legal(s, size, run) && WithinGet(s, size, run) && !AllCurrent(s)
    ensures !AllCurrent(After(s, size, run))
    decreases |run|
  {
    if run != [] {
      var n := Apply(s, size, run[0]);
      var k :| 0 <= k < |s.rpc.origins| && s.rpc.origins[k] != s.rpc.version;
      assert n.rpc.origins[k] == s.rpc.origins[k] && n.rpc.version == s.rpc.version;
      NotCurrentAfter(n, size, run[1..]);
    }
  }

  /** Over the whole of a get: all cells copied are those of the value that was current when the
      pointer was loaded if and only if the writer never overtook the reader. */
  lemma {:induction false} CurrentIffNeverOvertaken(s: State, size: nat, run: seq<Action>)
    requires Legal(s, size, run) && WithinGet(s, size, run) && AllCurrent(s)
    ensures AllCurrent(After(s, size, run)) <==> NeverOvertaken(s, size, run)
    decreases |run|
  {
    if run != [] {
      var n := Apply(s, size, run[0]);
      if run[0].GetCell? && Overtaken(s) {
        OvertakenIff(s, size, run[0]);
        assert n.rpc.origins[|s.rpc.copy|] != n.rpc.version;
        NotCurrentAfter(n, size, run[1..]);
      } else {
        CurrentIffNeverOvertaken(n, size, run[1..]);
      }
    }
  }

  /** A get delivers, untorn, the value that was current when it loaded the pointer, as long as the
      writer never overtakes it: a third put may begin, and even store, behind the reader. */
  lemma GetIsConsistent(s: State, size: nat, run: seq<Action>)
    requires Init(s, size) && Legal(s, size, run) && Enabled(After(s, size, run), size, GetUnmark)
    requires NeverOvertaken(s, size, run) || BeforeThirdPut(After(s, size, run))
    ensures var e := After(s, size, run);
            && Shape(e, size)
            && Apply(e, size, GetUnmark).lastGet == Some(Get(e.rpc.version, e.published[e.rpc.version]))
  {
    InvAfter(s, size, run);
    if NeverOvertaken(s, size, run) {
      CurrentAfter(s, size, run);
    }
    WholeCopy(After(s, size, run), size);
  }

  /** The writer stores into the slot that is being read exactly in the third, sixth, ... put
      counted from the load of the pointer. */
  lemma WritesIntoReadSlotIff(s: State, size: nat, run: seq<Action>)
    requires Init(s, size) && Legal(s, size, run)
    requires var e := After(s, size, run); e.wpc.WCopying? && e.rpc.RCopying?
    ensures var e := After(s, size, run); e.writer == e.rpc.slot <==> Since(e) % 3 == 2
  {
    InvAfter(s, size, run);
  }

  /** A put takes the spare slot exactly if a get is between setting and resetting `readingNow`. */
  lemma RotatesIff(s: State, size: nat, run: seq<Action>)
    requires Init(s, size) && Legal(s, size, run) && Enabled(After(s, size, run), size, PutTest)
    ensures var e := After(s, size, run);
            Shape(e, size) && (Apply(e, size, PutTest).wpc.WRotating? <==> e.rpc.RReading? || e.rpc.RCopying?)
  {
    InvAfter(s, size, run);
  }

  /** With both sides idle, a reset flag means that the last published value, if any was put, is
      what the last get delivered: `getOnlyIfNewData` never skips one. */
  lemma NothingNewMeansRead(s: State, size: nat, run: seq<Action>)
    requires Init(s, size) && Legal(s, size, run)
    requires var e := After(s, size, run);
             e.wpc.WIdle? && e.rpc.RIdle? && !e.newDataAvailable && 1 < |e.published|
    ensures var e := After(s, size, run); var last := |e.published| - 1;
            e.lastGet == Some(Get(last, e.published[last]))
  {
    InvAfter(s, size, run);
  }

  // ---------------------------------------------------------------- the flag, and what the callers pass

  predicate NoGetFrom(run: seq<Action>, i: nat) {
    forall j :: i <= j < |run| ==> !run[j].GetStart?
  }

  /** Some put of the run has set the flag, and no get has begun since. */
  predicate PutSinceGet(run: seq<Action>) {
    exists i :: 0 <= i < |run| && run[i].PutFlag? && NoGetFrom(run, i + 1)
  }

  lemma PutSinceGetFront(a: Action, rest: seq<Action>)
    ensures PutSinceGet([a] + rest) <==> PutSinceGet(rest) || (a.PutFlag? && NoGetFrom(rest, 0))
  {
    var run := [a] + rest;
    assert forall i :: 0 <= i < |rest| ==> rest[i] == run[i + 1];
    if PutSinceGet(rest) {
      var i :| 0 <= i < |rest| && rest[i].PutFlag? && NoGetFrom(rest, i + 1);
      assert run[i + 1].PutFlag? && NoGetFrom(run, i + 1 + 1);
    }
    if a.PutFlag? && NoGetFrom(rest, 0) {
      assert run[0].PutFlag? && NoGetFrom(run, 0 + 1);
    }
    if PutSinceGet(run) {
      var i :| 0 <= i < |run| && run[i].PutFlag? && NoGetFrom(run, i + 1);
      if i > 0 {
        assert rest[i - 1].PutFlag? && NoGetFrom(rest, i - 1 + 1);
      }
    }
  }

  lemma {:induction false} FlagAfter(s: State, size: nat, run: seq<Action>)
    requires Legal(s, size, run)
    ensures After(s, size, run).newDataAvailable <==> PutSinceGet(run) || (s.newDataAvailable && NoGetFrom(run, 0))
    decreases |run|
  {
    if run != [] {
      FlagAfter(Apply(s, size, run[0]), size, run[1..]);
      PutSinceGetFront(run[0], run[1..]);
      assert run == [run[0]] + run[1..];
      assert NoGetFrom(run, 0) <==> !run[0].GetStart? && NoGetFrom(run[1..], 0);
    }
  }

  /** `getOnlyIfNewData` goes on to get exactly if some put has been completed since the last get began;
      otherwise it leaves everything as it is. */
  lemma NewDataIff(s: State, size: nat, run: seq<Action>)
    requires Init(s, size) && Legal(s, size, run) && Enabled(After(s, size, run), size, GetCheck)
    ensures var e := After(s, size, run);
            && Shape(e, size)
            && (e.newDataAvailable <==> PutSinceGet(run))
            && Apply(e, size, GetCheck) == if PutSinceGet(run) then e.(rpc := RChecked) else e
  {
    InvAfter(s, size, run);
    FlagAfter(s, size, run);
  }

  /** The argument of the put under way. */
  function Argument(call: seq<int>, a: Action): seq<int> {
    if a.PutStart? then a.data else call
  }

  /** The arguments of the puts that have published. */
  function ArgumentsPublished(run: seq<Action>, call: seq<int>): seq<seq<int>> {
    if run == [] then []
    else (if run[0].PutPublish? then [call] else []) + ArgumentsPublished(run[1..], Argument(call, run[0]))
  }

  lemma PublishStep(s: State, size: nat, a: Action, call: seq<int>)
    requires Shape(s, size) && Enabled(s, size, a) && (s.wpc.WCopying? ==> s.wpc.data == call)
    ensures var n := Apply(s, size, a);
            && (n.wpc.WCopying? ==> n.wpc.data == Argument(call, a))
            && n.published == s.published + if a.PutPublish? then [call] else []
  {
  }

  lemma ArgumentsFront(before: seq<seq<int>>, run: seq<Action>, call: seq<int>)
    requires run != []
    ensures before + ArgumentsPublished(run, call) ==
            before + (if run[0].PutPublish? then [call] else []) + ArgumentsPublished(run[1..], Argument(call, run[0]))
  {
  }

  lemma {:induction false} PublishedAfter(s: State, size: nat, run: seq<Action>, call: seq<int>)
    requires Legal(s, size, run) && (s.wpc.WCopying? ==> s.wpc.data == call)
    ensures After(s, size, run).published == s.published + ArgumentsPublished(run, call)
    decreases |run|
  {
    if run == [] {
      assert s.published + [] == s.published;
    } else {
      PublishStep(s, size, run[0], call);
      PublishedAfter(Apply(s, size, run[0]), size, run[1..], Argument(call, run[0]));
      ArgumentsFront(s.published, run, call);
    }
  }

  /** Over every run, the values published are what the callers of `put` passed, in order, behind the
      initial one. */
  lemma PublishesArguments(s: State, size: nat, run: seq<Action>)
    requires Init(s, size) && Legal(s, size, run)
    ensures After(s, size, run).published == [s.slots[1]] + ArgumentsPublished(run, [])
  {
    PublishedAfter(s, size, run, []);
  }

  // ---------------------------------------------------------------- a run that tears

  ghost predicate Reached(s: State, size: nat, run: seq<Action>, e: State) {
    Legal(s, size, run) && After(s, size, run) == e && Shape(e, size)
  }

  lemma Step(s: State, size: nat, run: seq<Action>, e: State, a: Action) returns (longer: seq<Action>, n: State)
    requires Reached(s, size, run, e) && Enabled(e, size, a) && Shape(Apply(e, size, a), size)
    ensures longer == run + [a] && n == Apply(e, size, a) && Reached(s, size, longer, n)
    decreases |run|
  {
    longer, n := run + [a], Apply(e, size, a);
    if run == [] {
      assert run + [a] == [a] && [a][1..] == [];
    } else {
      var l, m := Step(Apply(s, size, run[0]), size, run[1..], e, a);
      assert longer[1..] == l;
    }
  }

  /** A whole put of a two-cell value, the reader standing still. */
  lemma PutCells(s: State, run: seq<Action>, e: State, data: seq<int>) returns (longer: seq<Action>, n: State)
    requires Reached(s, 2, run, e) && |data| == 2 && e.wpc.WIdle?
    ensures n == e.(slots := e.slots[e.writer := data], wpc := WCopying(data, 2))
    ensures Reached(s, 2, longer, n)
  {
    longer, n := Step(s, 2, run, e, PutStart(data));
    longer, n := Step(s, 2, longer, n, PutCell);
    longer, n := Step(s, 2, longer, n, PutCell);
    assert e.slots[e.writer][0 := data[0]][1 := data[1]] == data;
    assert n.slots == e.slots[e.writer := data];
  }

  lemma PutDuringGet(s: State, run: seq<Action>, e: State, data: seq<int>) returns (longer: seq<Action>, n: State)
    requires Reached(s, 2, run, e) && |data| == 2 && e.wpc.WIdle? && e.readingNow
    ensures n == e.(slots := e.slots[e.writer := data], reader := e.writer, writer := e.intermediate,
                    intermediate := e.reader, newDataAvailable := true, published := e.published + [data])
    ensures Reached(s, 2, longer, n)
  {
    longer, n := PutCells(s, run, e, data);
    longer, n := Step(s, 2, longer, n, PutPublish);
    longer, n := Step(s, 2, longer, n, PutSwap);
    longer, n := Step(s, 2, longer, n, PutTest);
    longer, n := Step(s, 2, longer, n, PutRotate);
    longer, n := Step(s, 2, longer, n, PutFlag);
  }

  lemma BeginGet(s: State, run: seq<Action>, e: State) returns (longer: seq<Action>, n: State)
    requires Reached(s, 2, run, e) && e.rpc.RIdle?
    ensures n == e.(newDataAvailable := false, readingNow := true, rpc := RCopying(e.reader, [], |e.published| - 1, []))
    ensures Reached(s, 2, longer, n)
  {
    longer, n := Step(s, 2, run, e, GetStart);
    longer, n := Step(s, 2, longer, n, GetMark);
    longer, n := Step(s, 2, longer, n, GetLoad);
  }

  /** The first cell, nothing having been published since the pointer was loaded. */
  lemma FirstCell(s: State, run: seq<Action>, e: State) returns (longer: seq<Action>, n: State)
    requires Reached(s, 2, run, e) && e.rpc.RCopying? && e.rpc.copy == [] && Since(e) == 0
    ensures n == e.(rpc := e.rpc.(copy := [e.slots[e.rpc.slot][0]], origins := [e.rpc.version]))
    ensures Reached(s, 2, longer, n)
  {
    assert Origin(e, 0) == e.rpc.version;
    longer, n := Step(s, 2, run, e, GetCell);
    assert n.rpc.copy == [e.slots[e.rpc.slot][0]] && n.rpc.origins == [e.rpc.version];
  }

  /** One cell read, then two whole puts. */
  lemma TwoPutsDuringGet(s: State) returns (run: seq<Action>, e: State)
    requires s == State([[0, 0], [1, 1], [2, 2]], 0, 1, 2, false, false, WIdle, RIdle, [[1, 1]], None)
    ensures Reached(s, 2, run, e)
    ensures e == State([[3, 3], [1, 1], [4, 4]], 1, 2, 0, true, true, WIdle, RCopying(1, [1], 0, [0]), [[1, 1], [3, 3], [4, 4]], None)
  {
    run, e := BeginGet(s, [], s);
    run, e := FirstCell(s, run, e);
    assert e == s.(readingNow := true, rpc := RCopying(1, [1], 0, [0]));
    run, e := PutDuringGet(s, run, e, [3, 3]);
    assert e == State([[3, 3], [1, 1], [2, 2]], 2, 0, 1, true, true, WIdle, RCopying(1, [1], 0, [0]), [[1, 1], [3, 3]], None);
    run, e := PutDuringGet(s, run, e, [4, 4]);
  }

  /** Two publications do not tear a value by themselves, but a third put that has only begun
      does: the value delivered here was never published. */
  lemma ThirdPutTears() returns (s: State, run: seq<Action>, e: State)
    ensures Init(s, 2) && Reached(s, 2, run, e)
    ensures |e.published| == 3 && e.rpc.RIdle?
    ensures e.lastGet.Some? && e.lastGet.value.version == 0 && e.lastGet.value.copy !in e.published
  {
    s := State([[0, 0], [1, 1], [2, 2]], 0, 1, 2, false, false, WIdle, RIdle, [[1, 1]], None);
    run, e := TwoPutsDuringGet(s);
    run, e := PutCells(s, run, e, [5, 5]);
    assert e.slots == [[3, 3], [5, 5], [4, 4]];
    run, e := Step(s, 2, run, e, GetCell);
    assert e.rpc.RCopying? && e.rpc.version == 0 && e.rpc.copy == [1, 5];
    run, e := Step(s, 2, run, e, GetUnmark);
  }
}
