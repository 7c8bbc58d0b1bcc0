/** A fifo with several readers: a put never waits, it pushes readers that are too slow one
    element ahead and counts what they lose. */
module MultipleReaderFifos {
  import opened Common
  import opened Rings

  const COUNTER_RANGE: nat := 0x1_0000_0000

  /** The history of one reader: the positions, among everything ever put, of the elements it got,
      and the number of elements it lost. */
  datatype Reader = Reader(got: seq<nat>, lost: nat) {
    function Position(): nat {
      |got| + lost
    }

    ghost predicate InOrder() {
      && (forall i, j :: 0 <= i < j < |got| ==> got[i] < got[j])
      && (forall i :: 0 <= i < |got| ==> got[i] < Position())
    }

    function Get(): Reader {
      this.(got := got + [Position()])
    }

    function Lose(): Reader {
      this.(lost := lost + 1)
    }
  }

  class MultipleReaderFifo<T(0)> {
    const buffer: array<T>
    const readX: array<nat>
    const overflowCnt: array<nat>  // counts modulo 2^32
    var writeX: nat
    var readerCnt: nat  // counts modulo 2^32
    ghost var history: seq<T>  // everything ever put
    ghost var readers: seq<Reader>

    /** Reader `i` has before it exactly the elements put since its position. */
    ghost predicate ReaderOk(i: nat)
      requires i < readX.Length && i < overflowCnt.Length && i < |readers|
      reads this, buffer, readX, overflowCnt
    {
      var r := readers[i];
      && r.InOrder()
      && r.Position() <= |history|
      && overflowCnt[i] == r.lost % COUNTER_RANGE
      && Holds(buffer[..], readX[i], writeX, history[r.Position()..])
    }

    /** The number of elements before reader `i`. */
    ghost function Pending(i: nat): int
      requires i < |readers|
      reads this
    {
      |history| - readers[i].Position()
    }

    /** The elements before reader `i`. */
    ghost function Window(i: nat): seq<T>
      requires Valid() && i < |readers|
      reads this, buffer, readX, overflowCnt
    {
      assert ReaderOk(i);
      history[readers[i].Position()..]
    }

    ghost predicate Shape()
      reads this
    {
      && 2 <= buffer.Length && writeX < buffer.Length
      && readX != overflowCnt && buffer as object != readX && buffer as object != overflowCnt
      && readX.Length == overflowCnt.Length == |readers|
    }

    ghost predicate Valid()
      reads this, buffer, readX, overflowCnt
    {
      Shape() && forall i :: 0 <= i < |readers| ==> ReaderOk(i)
    }

    constructor (len: nat, numOfReaders: nat)
      requires 2 <= len
      ensures Valid() && history == [] && buffer.Length == len
      ensures |readers| == numOfReaders && forall r <- readers :: r == Reader([], 0)
      ensures fresh(buffer) && fresh(readX) && fresh(overflowCnt)
    {
      buffer := new T[len];
      readX := new nat[numOfReaders](_ => 0);
      overflowCnt := new nat[numOfReaders](_ => 0);
      writeX, readerCnt := 0, 0;
      history := [];
      readers := seq(numOfReaders, _ => Reader([], 0));
    }

    /** Ids are handed out in order, and refused when all are taken. */
    method GetReaderId() returns (id: int)
      requires readerCnt < COUNTER_RANGE
      modifies this`readerCnt
      ensures readerCnt == (old(readerCnt) + 1) % COUNTER_RANGE
      ensures id == if old(readerCnt) < readX.Length then old(readerCnt) else -1
    {
      var myId := readerCnt;
      readerCnt := (readerCnt + 1) % COUNTER_RANGE;
      if myId >= readX.Length {
        return -1;
      }
      return myId;
    }

    /** What a put does to one reader: it loses its oldest element if the ring is full for it. */
    static function AfterPut(r: Reader, puts: nat, len: nat): Reader {
      if puts - r.Position() == len - 1 then r.Lose() else r
    }

    /** Reader `i` once it has been pushed ahead, before the new element is stored. */
    ghost predicate Pushed(i: nat, before: Reader)
      requires i < readX.Length && i < overflowCnt.Length
      reads this, buffer, readX, overflowCnt
    {
      var r := AfterPut(before, |history|, buffer.Length);
      && r.InOrder()
      && r.Position() <= |history| && |history| - r.Position() + 1 < buffer.Length
      && overflowCnt[i] == r.lost % COUNTER_RANGE
      && Holds(buffer[..], readX[i], writeX, history[r.Position()..])
    }

    method PushReader(i: nat, nextIndex: nat)
      requires Shape() && i < |readers| && ReaderOk(i) && nextIndex == Advance(writeX, buffer.Length)
      modifies readX, overflowCnt
      ensures Pushed(i, readers[i])
      ensures forall j :: 0 <= j < readX.Length && j != i ==> readX[j] == old(readX[j]) && overflowCnt[j] == old(overflowCnt[j])
    {
      ghost var r := readers[i];
      ghost var pending := history[r.Position()..];
      FullAndEmpty(buffer[..], readX[i], writeX, pending);
      if nextIndex == readX[i] {
        HoldsAfterRead(buffer[..], readX[i], writeX, pending, 1);
        AdvanceIsSlot(readX[i], buffer.Length);
        assert pending[1..] == history[r.Lose().Position()..];
        readX[i] := Advance(readX[i], buffer.Length);
        overflowCnt[i] := (overflowCnt[i] + 1) % COUNTER_RANGE;
        NextCount(r.lost);
      }
    }

    method Put(val: T) returns (writtenPos: nat)
      requires Valid()
      modifies this`writeX, this`history, this`readers, buffer, readX, overflowCnt
      ensures Valid() && writtenPos == old(writeX)
      ensures history == old(history) + [val]
      ensures |readers| == |old(readers)|
      ensures forall i :: 0 <= i < |readers| ==> readers[i] == AfterPut(old(readers[i]), |old(history)|, buffer.Length)
      ensures forall i :: 0 <= i < |readers| ==>
                && readers[i].got == old(readers[i]).got
                && Pending(i) == Min(|old(history)| - old(readers[i]).Position() + 1, buffer.Length - 1)
    {
      writtenPos := writeX;
      var nextIndex := Advance(writeX, buffer.Length);
      for i := 0 to readX.Length
        modifies readX, overflowCnt
        invariant forall j :: 0 <= j < i ==> Pushed(j, readers[j])
        invariant forall j :: i <= j < readX.Length ==> ReaderOk(j)
      {
        label Before:
        PushReader(i, nextIndex);
        forall j | 0 <= j < i ensures Pushed(j, readers[j]) {
          assert old@Before(Pushed(j, readers[j]));
        }
        forall j | i < j < readX.Length ensures ReaderOk(j) {
          assert old@Before(ReaderOk(j));
        }
      }
      ghost var cells := buffer[..];
      AdvanceIsSlot(writeX, buffer.Length);
      forall i | 0 <= i < |readers|
        ensures var r := AfterPut(readers[i], |history|, buffer.Length);
                && r.InOrder() && r.Position() <= |history|
                && Holds(cells[writeX := val], readX[i], nextIndex, (history + [val])[r.Position()..])
                && overflowCnt[i] == r.lost % COUNTER_RANGE
      {
        assert Pushed(i, readers[i]);
        var r := AfterPut(readers[i], |history|, buffer.Length);
        HoldsAfterWrite(cells, readX[i], writeX, history[r.Position()..], val);
        assert (history + [val])[r.Position()..] == history[r.Position()..] + [val];
      }
      buffer[writeX] := val;
      assert buffer[..] == cells[writeX := val];
      writeX := nextIndex;
      ghost var before, puts, len := readers, |history|, buffer.Length;
      readers := seq(|before|, i requires 0 <= i < |before| => AfterPut(before[i], puts, len));
      history := history + [val];
    }

    /** The next element for the reader, or nothing when the reader has seen everything. */
    method Get(readerId: nat, default: T) returns (ok: bool, val: T)
      requires Valid()
      modifies this`readers, readX
      ensures Valid()
      ensures ok == (readerId < |readers| && old(readers)[readerId].Position() < |history|)
      ensures ok ==> val == history[old(readers)[readerId].Position()]
                     && readers == old(readers)[readerId := old(readers)[readerId].Get()]
      ensures !ok ==> val == default && readers == old(readers)
    {
      if readerId >= readX.Length {
        return false, default;
      }
      assert ReaderOk(readerId);
      ghost var r := readers[readerId];
      ghost var pending := history[r.Position()..];
      FullAndEmpty(buffer[..], readX[readerId], writeX, pending);
      if readX[readerId] == writeX {
        return false, default;
      }
      val := Deliver(readerId);
      return true, val;
    }

    /** The element at the reader's position, the index moving on. */
    method Deliver(readerId: nat) returns (val: T)
      requires Valid() && readerId < |readers| && readers[readerId].Position() < |history|
      modifies this`readers, readX
      ensures Valid() && readers == old(readers)[readerId := old(readers)[readerId].Get()]
      ensures val == history[old(readers)[readerId].Position()]
    {
      assert ReaderOk(readerId);
      ghost var r := readers[readerId];
      ghost var pending := history[r.Position()..];
      HoldsAfterRead(buffer[..], readX[readerId], writeX, pending, 1);
      AdvanceIsSlot(readX[readerId], buffer.Length);
      FullAndEmpty(buffer[..], readX[readerId], writeX, pending);
      assert pending[1..] == history[r.Get().Position()..];
      val := buffer[readX[readerId]];
      label Before:
      readX[readerId] := Advance(readX[readerId], buffer.Length);
      readers := readers[readerId := r.Get()];
      forall j | 0 <= j < |readers| ensures ReaderOk(j) {
        assert old@Before(ReaderOk(j));
      }
    }

    /** Every element put is accounted for: got, lost or still pending, and at most len-1 are
        pending; the counter is the exact loss as long as it does not wrap. */
    lemma Accounting(i: nat)
      requires Valid() && i < |readers|
      ensures var r := readers[i];
              && |r.got| + r.lost <= |history| < |r.got| + r.lost + buffer.Length
              && (r.lost < COUNTER_RANGE ==> overflowCnt[i] == r.lost)
              && forall k, l :: 0 <= k < l < |r.got| ==> r.got[k] < r.got[l] < |history|
    {
      assert ReaderOk(i);
    }

    lemma NextCount(n: nat)
      ensures (n % COUNTER_RANGE + 1) % COUNTER_RANGE == (n + 1) % COUNTER_RANGE
    {
    }
  }

  // ---------------------------------------------------------------- what one reader gets over a run

  datatype Operation<T> = Put(val: T) | Get(reader: nat)

  function PutsOf<T>(ops: seq<Operation<T>>): seq<T> {
    if ops == [] then [] else (if ops[0].Put? then [ops[0].val] else []) + PutsOf(ops[1..])
  }

  /** What lies before reader `i`, of at most `room` elements: a put into a full one pushes out the
      oldest. */
  function Next<T>(window: seq<T>, room: nat, i: nat, op: Operation<T>): seq<T>
    requires 0 < room
  {
    if op == Get(i) then if window == [] then [] else window[1..]
    else if op.Get? then window
    else if |window| < room then window + [op.val]
    else window[1..] + [op.val]
  }

  function Received<T>(window: seq<T>, room: nat, i: nat, ops: seq<Operation<T>>): seq<T>
    requires 0 < room
    decreases |ops|
  {
    if ops == [] then []
    else
      (if ops[0] == Get(i) && window != [] then [window[0]] else []) +
      Received(Next(window, room, i, ops[0]), room, i, ops[1..])
  }

  function WindowAfter<T>(window: seq<T>, room: nat, i: nat, ops: seq<Operation<T>>): seq<T>
    requires 0 < room
    decreases |ops|
  {
    if ops == [] then window else WindowAfter(Next(window, room, i, ops[0]), room, i, ops[1..])
  }

  /** No put finds `room` elements before the reader. */
  predicate NeverFull<T>(window: seq<T>, room: nat, i: nat, ops: seq<Operation<T>>)
    requires 0 < room
    decreases |ops|
  {
    ops == [] || ((ops[0].Put? ==> |window| < room) && NeverFull(Next(window, room, i, ops[0]), room, i, ops[1..]))
  }

  lemma {:induction false} Account<T>(window: seq<T>, room: nat, i: nat, ops: seq<Operation<T>>)
    requires 0 < room
    ensures var all, kept := window + PutsOf(ops), Received(window, room, i, ops) + WindowAfter(window, room, i, ops);
            if NeverFull(window, room, i, ops) then kept == all else |kept| < |all|
    decreases |ops|
  {
    if ops != [] {
      var next := Next(window, room, i, ops[0]);
      var d := if ops[0] == Get(i) && window != [] then [window[0]] else [];
      var v := if ops[0].Put? then [ops[0].val] else [];
      var received, left := Received(next, room, i, ops[1..]), WindowAfter(next, room, i, ops[1..]);
      Account(next, room, i, ops[1..]);
      assert d + next == window + v || |d + next| < |window + v|;
      AccountStep(window + v, d, next, PutsOf(ops[1..]), received, left);
      assert window + (v + PutsOf(ops[1..])) == window + v + PutsOf(ops[1..]);
    }
  }

  /** A reader gets, with what is still before it, everything put, in order, if and only if no put ever
      found the fifo full for it. */
  lemma NothingLostIff<T>(room: nat, i: nat, ops: seq<Operation<T>>)
    requires 0 < room
    ensures Received([], room, i, ops) + WindowAfter([], room, i, ops) == PutsOf(ops) <==> NeverFull([], room, i, ops)
  {
    Account([], room, i, ops);
    assert [] + PutsOf(ops) == PutsOf(ops);
  }

  lemma WindowAfterPut<T>(history: seq<T>, val: T, position: nat, after: nat, room: nat, i: nat)
    requires position <= |history| && |history| - position <= room && 0 < room
    requires after <= |history| + 1 && |history| + 1 - after == Min(|history| - position + 1, room)
    ensures (history + [val])[after..] == Next(history[position..], room, i, Put(val))
  {
  }

  /** One call, and what reader `i` got from it. */
  method Serve<T(0)>(fifo: MultipleReaderFifo<T>, i: nat, op: Operation<T>, default: T) returns (received: seq<T>)
    requires fifo.Valid() && i < |fifo.readers|
    modifies fifo`writeX, fifo`history, fifo`readers, fifo.buffer, fifo.readX, fifo.overflowCnt
    ensures fifo.Valid() && |fifo.readers| == |old(fifo.readers)|
    ensures fifo.history == old(fifo.history) + if op.Put? then [op.val] else []
    ensures fifo.Window(i) == Next(old(fifo.Window(i)), fifo.buffer.Length - 1, i, op)
    ensures received == if op == Get(i) && old(fifo.Window(i)) != [] then [old(fifo.Window(i))[0]] else []
    ensures |fifo.readers[i].got| == |old(fifo.readers)[i].got| + |received|
  {
    received := [];
    fifo.Accounting(i);
    match op {
      case Put(val) =>
        ghost var position := fifo.readers[i].Position();
        var written := fifo.Put(val);
        fifo.Accounting(i);
        WindowAfterPut(old(fifo.history), val, position, fifo.readers[i].Position(), fifo.buffer.Length - 1, i);
      case Get(reader) =>
        var ok, val := fifo.Get(reader, default);
        if ok && reader == i {
          received := [val];
        }
    }
  }

  /** What has been received, and will be by `rest` with `window` before the reader, is what `ops` give. */
  ghost predicate Continues<T>(received: seq<T>, window: seq<T>, puts: nat, room: nat, i: nat,
                               rest: seq<Operation<T>>, ops: seq<Operation<T>>)
    requires 0 < room
  {
    && received + Received(window, room, i, rest) == Received([], room, i, ops)
    && WindowAfter(window, room, i, rest) == WindowAfter([], room, i, ops)
    && puts + |PutsOf(rest)| == |PutsOf(ops)|
  }

  lemma ContinuesFurther<T>(received: seq<T>, window: seq<T>, puts: nat, room: nat, i: nat,
                            rest: seq<Operation<T>>, ops: seq<Operation<T>>)
    requires 0 < room && rest != [] && Continues(received, window, puts, room, i, rest, ops)
    ensures var some := if rest[0] == Get(i) && window != [] then [window[0]] else [];
            Continues(received + some, Next(window, room, i, rest[0]), puts + if rest[0].Put? then 1 else 0,
                      room, i, rest[1..], ops)
  {
    var some := if rest[0] == Get(i) && window != [] then [window[0]] else [];
    var later := Received(Next(window, room, i, rest[0]), room, i, rest[1..]);
    assert received + (some + later) == received + some + later;
  }

  method ServeNext<T(0)>(fifo: MultipleReaderFifo<T>, i: nat, ops: seq<Operation<T>>, n: nat, before: seq<T>, default: T)
    returns (received: seq<T>)
    requires fifo.Valid() && i < |fifo.readers| && n < |ops|
    requires Continues(before, fifo.Window(i), |fifo.history|, fifo.buffer.Length - 1, i, ops[n..], ops)
    requires |fifo.readers[i].got| == |before|
    modifies fifo`writeX, fifo`history, fifo`readers, fifo.buffer, fifo.readX, fifo.overflowCnt
    ensures fifo.Valid() && |fifo.readers| == |old(fifo.readers)|
    ensures Continues(received, fifo.Window(i), |fifo.history|, fifo.buffer.Length - 1, i, ops[n + 1..], ops)
    ensures |fifo.readers[i].got| == |received|
  {
    ContinuesFurther(before, fifo.Window(i), |fifo.history|, fifo.buffer.Length - 1, i, ops[n..], ops);
    assert ops[n..][1..] == ops[n + 1..];
    var some := Serve(fifo, i, ops[n], default);
    received := before + some;
  }

  /** A fifo for some readers in use, and what one of them got. */
  method Use<T(0)>(len: nat, numOfReaders: nat, i: nat, ops: seq<Operation<T>>, default: T)
    returns (received: seq<T>, lost: nat)
    requires 2 <= len && i < numOfReaders
    ensures received == Received([], len - 1, i, ops)
    ensures lost == (|PutsOf(ops)| - |received| - |WindowAfter([], len - 1, i, ops)|) % COUNTER_RANGE
  {
    var fifo := new MultipleReaderFifo<T>(len, numOfReaders);
    received := [];
    assert fifo.readers[i] in fifo.readers;
    assert fifo.Window(i) == [] && ops[0..] == ops;
    for n := 0 to |ops|
      invariant fifo.Valid() && fresh(fifo) && fresh(fifo.buffer) && fresh(fifo.readX) && fresh(fifo.overflowCnt)
      invariant fifo.buffer.Length == len && |fifo.readers| == numOfReaders
      invariant Continues(received, fifo.Window(i), |fifo.history|, fifo.buffer.Length - 1, i, ops[n..], ops)
      invariant |fifo.readers[i].got| == |received|
    {
      received := ServeNext(fifo, i, ops, n, received, default);
    }
    assert fifo.ReaderOk(i);
    lost := fifo.overflowCnt[i];
  }
}
