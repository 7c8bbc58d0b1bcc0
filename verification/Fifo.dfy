/** The fifo, with single elements and with blocks, used from one thread at a time; its use from
    two threads at once is the subject of SyncFifo.dfy. */
module Fifos {
  import opened Common
  import opened Rings

  class Fifo<T(0)> {
    var buffer: array<T>
    var writeX: nat
    var readX: nat
    var putErrors: nat
    var getErrors: nat
    ghost var contents: seq<T>

    ghost predicate Valid()
      reads this, buffer
    {
      2 <= buffer.Length && Holds(buffer[..], readX, writeX, contents)
    }

    constructor (len: nat)
      requires 2 <= len
      ensures Valid() && contents == [] && buffer.Length == len && fresh(buffer)
      ensures putErrors == 0 && getErrors == 0
    {
      buffer := new T[len];
      readX, writeX, putErrors, getErrors := 0, 0, 0, 0;
      contents := [];
    }

    method Put(val: T) returns (ok: bool)
      requires Valid()
      modifies this`writeX, this`putErrors, this`contents, buffer
      ensures Valid()
      ensures ok == (|old(contents)| < buffer.Length - 1)
      ensures contents == if ok then old(contents) + [val] else old(contents)
      ensures putErrors == old(putErrors) + if ok then 0 else 1
      ensures buffer[..] == if ok then old(buffer[..])[old(writeX) := val] else old(buffer[..])
      ensures writeX == if ok then Advance(old(writeX), buffer.Length) else old(writeX)
    {
      FullAndEmpty(buffer[..], readX, writeX, contents);
      AdvanceIsSlot(writeX, buffer.Length);
      var index := Advance(writeX, buffer.Length);
      if index == readX {
        putErrors := putErrors + 1;
        return false;
      }
      HoldsAfterWrite(buffer[..], readX, writeX, contents, val);
      ghost var cells := buffer[..];
      buffer[writeX] := val;
      assert buffer[..] == cells[writeX := val];
      writeX := index;
      contents := contents + [val];
      return true;
    }

    method Get(default: T) returns (ok: bool, val: T)
      requires Valid()
      modifies this`readX, this`getErrors, this`contents
      ensures Valid()
      ensures ok == (old(contents) != [])
      ensures if ok then old(contents) == [val] + contents else val == default && contents == old(contents)
      ensures getErrors == old(getErrors) + if ok then 0 else 1
      ensures readX == if ok then Advance(old(readX), buffer.Length) else old(readX)
    {
      FullAndEmpty(buffer[..], readX, writeX, contents);
      if readX == writeX {
        getErrors := getErrors + 1;
        return false, default;
      }
      HoldsAfterRead(buffer[..], readX, writeX, contents, 1);
      AdvanceIsSlot(readX, buffer.Length);
      val := buffer[readX];
      readX := Advance(readX, buffer.Length);
      contents := contents[1..];
      return true, val;
    }

    method GetElementCount() returns (n: nat)
      requires Valid()
      ensures n == |contents|
    {
      FullAndEmpty(buffer[..], readX, writeX, contents);
      var r, w := readX, writeX;
      return if r <= w then w - r else buffer.Length - r + w;
    }

    method GetFreeSpaceCount() returns (n: nat)
      requires Valid()
      ensures n + |contents| == buffer.Length - 1
    {
      var used := GetElementCount();
      return buffer.Length - used - 1;
    }

    // -------------------------------------------------------------- blocks

    /** Room for a block: free cells up to the end of the array. */
    ghost function WriteRoom(): int
      reads this, buffer
      requires Valid()
    {
      var free := buffer.Length - 1 - |contents|;
      if free < buffer.Length - writeX then free else buffer.Length - writeX
    }

    /** Elements of a block: those stored up to the end of the array. */
    ghost function ReadRoom(): int
      reads this, buffer
      requires Valid()
    {
      if |contents| < buffer.Length - readX then |contents| else buffer.Length - readX
    }

    method AdvanceIndexEx(index: nat, advanceSize: nat) returns (newIndex: nat)
      requires Valid()
      ensures newIndex == (index + advanceSize) % buffer.Length
    {
      newIndex := index + advanceSize;
      ghost var rounds := 0;
      while newIndex >= buffer.Length
        invariant index + advanceSize == rounds * buffer.Length + newIndex
      {
        newIndex := newIndex - buffer.Length;
        rounds := rounds + 1;
      }
      RemainderIs(index + advanceSize, buffer.Length, rounds, newIndex);
    }

    /** The index of the first cell of the block, none when the fifo is full. */
    method GetBufferToWrite() returns (start: int, maxLen: nat)
      requires Valid()
      ensures maxLen == WriteRoom() == Min(buffer.Length - 1 - |contents|, buffer.Length - writeX)
      ensures start == if maxLen == 0 then -1 else writeX
    {
      FullAndEmpty(buffer[..], readX, writeX, contents);
      var r, w := readX, writeX;
      if r == Advance(w, buffer.Length) {
        return -1, 0;
      }
      if r > w {
        maxLen := r - w - 1;
      } else {
        maxLen := buffer.Length - w;
        if r == 0 {
          maxLen := maxLen - 1;
        }
      }
      start := w;
    }

    /** The owner of the pointer stores an element; nobody else can see it yet. */
    method StoreInBlock(k: nat, val: T)
      requires Valid() && k < WriteRoom()
      modifies buffer
      ensures Valid() && buffer[..] == old(buffer[..])[writeX + k := val]
    {
      HoldsAfterFreeWrite(buffer[..], readX, writeX, contents, k, val);
      ghost var cells := buffer[..];
      buffer[writeX + k] := val;
      assert buffer[..] == cells[writeX + k := val];
    }

    method WriteConcluded(numOfWrittenElements: nat)
      requires Valid() && numOfWrittenElements <= WriteRoom()
      modifies this`writeX, this`contents
      ensures Valid()
      ensures writeX == Slot(old(writeX), numOfWrittenElements, buffer.Length)
      ensures contents == old(contents) + buffer[old(writeX)..old(writeX) + numOfWrittenElements]
    {
      ghost var data := buffer[writeX..writeX + numOfWrittenElements];
      assert data == buffer[..][writeX..writeX + numOfWrittenElements];
      HoldsAfterAppend(buffer[..], readX, writeX, contents, data);
      SlotIsRemainder(writeX, numOfWrittenElements, buffer.Length);
      writeX := AdvanceIndexEx(writeX, numOfWrittenElements);
      contents := contents + data;
    }

    method GetBufferToRead() returns (start: int, maxLen: nat)
      requires Valid()
      ensures maxLen == ReadRoom() == Min(|contents|, buffer.Length - readX)
      ensures start == if maxLen == 0 then -1 else readX
      ensures readX + maxLen <= buffer.Length && buffer[readX..readX + maxLen] == contents[..maxLen]
    {
      FullAndEmpty(buffer[..], readX, writeX, contents);
      var r, w := readX, writeX;
      if r == w {
        return -1, 0;
      }
      if r < w {
        maxLen := w - r;
      } else {
        maxLen := buffer.Length - r;
      }
      start := r;
      forall i | 0 <= i < maxLen ensures buffer[readX + i] == contents[i] {
        assert Ring(buffer[..], readX, |contents|)[i] == contents[i];
      }
    }

    method ReadConcluded(sizeRed: nat)
      requires Valid() && sizeRed <= ReadRoom()
      modifies this`readX, this`contents
      ensures Valid()
      ensures readX == Slot(old(readX), sizeRed, buffer.Length)
      ensures contents == old(contents)[sizeRed..]
    {
      HoldsAfterRead(buffer[..], readX, writeX, contents, sizeRed);
      SlotIsRemainder(readX, sizeRed, buffer.Length);
      readX := AdvanceIndexEx(readX, sizeRed);
      contents := contents[sizeRed..];
    }
  }

  // ---------------------------------------------------------------- blocks against single elements

  /** Array and index after single puts of `data`, none of which finds the fifo full. */
  function SinglePuts<T>(cells: seq<T>, writeX: nat, data: seq<T>): (seq<T>, nat)
    requires writeX < |cells|
    decreases |data|
  {
    if data == [] then (cells, writeX)
    else SinglePuts(cells[writeX := data[0]], Advance(writeX, |cells|), data[1..])
  }

  /** `cells` with `data` written from cell `w` on. */
  function Filled<T>(cells: seq<T>, w: nat, data: seq<T>): (r: seq<T>)
    requires w + |data| <= |cells|
    ensures |r| == |cells| && r[w..w + |data|] == data
  {
    cells[..w] + data + cells[w + |data|..]
  }

  lemma FilledOneMore<T>(cells: seq<T>, w: nat, data: seq<T>, i: nat)
    requires i < |data| && w + i < |cells|
    ensures Filled(cells, w, data[..i])[w + i := data[i]] == Filled(cells, w, data[..i + 1])
  {
  }

  lemma FirstFilled<T>(cells: seq<T>, w: nat, data: seq<T>)
    requires data != [] && w + |data| <= |cells|
    ensures Filled(cells[w := data[0]], w + 1, data[1..]) == Filled(cells, w, data)
  {
    var after := cells[w := data[0]];
    assert after[..w + 1] == cells[..w] + [data[0]];
    assert after[w + |data|..] == cells[w + |data|..];
    assert [data[0]] + data[1..] == data;
  }

  /** A block filled and concluded leaves array and index as single puts do. */
  lemma {:induction false} BlockIsSinglePuts<T>(cells: seq<T>, writeX: nat, data: seq<T>)
    requires writeX < |cells| && writeX + |data| <= |cells|
    ensures SinglePuts(cells, writeX, data) == (Filled(cells, writeX, data), Slot(writeX, |data|, |cells|))
    decreases |data|
  {
    if data == [] {
      assert cells[..writeX] + data + cells[writeX..] == cells;
    } else {
      var after := cells[writeX := data[0]];
      if writeX + 1 < |cells| {
        BlockIsSinglePuts(after, writeX + 1, data[1..]);
        FirstFilled(cells, writeX, data);
      } else {
        assert data == [data[0]] && after == cells[..writeX] + data + cells[writeX + 1..];
      }
    }
  }

  function SingleGets(readX: nat, n: nat, w: nat): nat
    requires readX < w
    decreases n
  {
    if n == 0 then readX else SingleGets(Advance(readX, w), n - 1, w)
  }

  /** A block read and concluded moves the index as single gets do. */
  lemma {:induction false} BlockIsSingleGets(readX: nat, n: nat, w: nat)
    requires readX < w && readX + n <= w
    ensures SingleGets(readX, n, w) == Slot(readX, n, w)
    decreases n
  {
    if n > 0 && readX + 1 < w {
      BlockIsSingleGets(readX + 1, n - 1, w);
    }
  }

  method PutsOneByOne<T(0)>(f: Fifo<T>, data: seq<T>)
    requires f.Valid() && |f.contents| + |data| < f.buffer.Length
    modifies f`writeX, f`putErrors, f`contents, f.buffer
    ensures f.Valid() && f.contents == old(f.contents) + data
    ensures (f.buffer[..], f.writeX) == SinglePuts(old(f.buffer[..]), old(f.writeX), data)
  {
    assert data[0..] == data;
    for i := 0 to |data|
      invariant f.Valid() && f.buffer.Length == old(f.buffer.Length)
      invariant f.contents == old(f.contents) + data[..i]
      invariant SinglePuts(f.buffer[..], f.writeX, data[i..]) == SinglePuts(old(f.buffer[..]), old(f.writeX), data)
    {
      assert data[i..][0] == data[i] && data[i..][1..] == data[i + 1..];
      assert data[..i + 1] == data[..i] + [data[i]];
      var ok := f.Put(data[i]);
    }
    assert data[..|data|] == data && data[|data|..] == [];
  }

  /** The owner of the pointer fills the block. */
  method FillBlock<T(0)>(f: Fifo<T>, data: seq<T>)
    requires f.Valid() && |data| <= f.WriteRoom() && f.writeX + |data| <= f.buffer.Length
    modifies f.buffer
    ensures f.Valid() && f.buffer[..] == Filled(old(f.buffer[..]), f.writeX, data)
  {
    ghost var cells, w := f.buffer[..], f.writeX;
    for i := 0 to |data|
      invariant f.Valid() && |data| <= f.WriteRoom()
      invariant f.buffer[..] == Filled(cells, w, data[..i])
    {
      FilledOneMore(cells, w, data, i);
      f.StoreInBlock(i, data[i]);
    }
    assert data[..|data|] == data;
  }

  /** As many elements as the block offered has room for, through the pointer. */
  method PutsAsBlock<T(0)>(f: Fifo<T>, data: seq<T>) returns (n: nat)
    requires f.Valid()
    modifies f`writeX, f`contents, f.buffer
    ensures f.Valid() && n <= |data|
    ensures n == Min(|data|, Min(f.buffer.Length - 1 - |old(f.contents)|, f.buffer.Length - old(f.writeX)))
    ensures f.contents == old(f.contents) + data[..n] && old(f.writeX) + n <= f.buffer.Length
    ensures f.buffer[..] == Filled(old(f.buffer[..]), old(f.writeX), data[..n])
    ensures f.writeX == Slot(old(f.writeX), n, f.buffer.Length)
  {
    var start, maxLen := f.GetBufferToWrite();
    n := if |data| < maxLen then |data| else maxLen;
    FillBlock(f, data[..n]);
    ghost var w := f.writeX;
    assert f.buffer[w..w + n] == f.buffer[..][w..w + n];
    f.WriteConcluded(n);
  }

  /** Filling a block and concluding it is putting the same elements one by one: two fifos in the
      same state are in the same state afterwards. */
  method BlockOrSinglePuts<T(0)>(block: Fifo<T>, single: Fifo<T>, data: seq<T>) returns (n: nat)
    requires block != single && block.buffer != single.buffer && block.Valid() && single.Valid()
    requires block.buffer[..] == single.buffer[..] && block.contents == single.contents
    requires block.writeX == single.writeX && block.readX == single.readX
    modifies block`writeX, block`contents, block.buffer
    modifies single`writeX, single`putErrors, single`contents, single.buffer
    ensures n == Min(|data|, Min(block.buffer.Length - 1 - |old(block.contents)|, block.buffer.Length - old(block.writeX)))
    ensures block.Valid() && single.Valid() && block.contents == single.contents == old(block.contents) + data[..n]
    ensures block.buffer[..] == single.buffer[..]
    ensures block.writeX == single.writeX && block.readX == single.readX
  {
    ghost var cells, w := block.buffer[..], block.writeX;
    FullAndEmpty(cells, block.readX, w, block.contents);
    n := PutsAsBlock(block, data);
    PutsOneByOne(single, data[..n]);
    BlockIsSinglePuts(cells, w, data[..n]);
  }

  method GetsOneByOne<T(0)>(f: Fifo<T>, n: nat, default: T) returns (got: seq<T>)
    requires f.Valid() && n <= |f.contents|
    modifies f`readX, f`getErrors, f`contents
    ensures f.Valid() && got == old(f.contents)[..n] && f.contents == old(f.contents)[n..]
    ensures f.readX == SingleGets(old(f.readX), n, f.buffer.Length)
  {
    got := [];
    for i := 0 to n
      invariant f.Valid() && got == old(f.contents)[..i] && f.contents == old(f.contents)[i..]
      invariant SingleGets(f.readX, n - i, f.buffer.Length) == SingleGets(old(f.readX), n, f.buffer.Length)
    {
      var ok, val := f.Get(default);
      got := got + [val];
    }
  }

  /** Reading a block and concluding it is getting the same elements one by one. */
  method BlockOrSingleGets<T(0)>(block: Fifo<T>, single: Fifo<T>, atMost: nat, default: T)
    returns (fromBlock: seq<T>, fromSingles: seq<T>)
    requires block != single && block.Valid() && single.Valid()
    requires block.buffer.Length == single.buffer.Length && block.contents == single.contents
    requires block.writeX == single.writeX && block.readX == single.readX
    modifies block`readX, block`contents, single`readX, single`getErrors, single`contents
    ensures block.Valid() && single.Valid()
    ensures fromBlock == fromSingles
    ensures |fromBlock| == Min(atMost, Min(|old(block.contents)|, block.buffer.Length - old(block.readX)))
    ensures old(block.contents) == fromBlock + block.contents && block.contents == single.contents
    ensures block.writeX == single.writeX && block.readX == single.readX
  {
    var start, maxLen := block.GetBufferToRead();
    var n: nat := if atMost < maxLen then atMost else maxLen;
    fromBlock := [];
    if n > 0 {
      fromBlock := block.buffer[start..start + n];
      assert fromBlock == block.buffer[start..start + maxLen][..n];
    }
    BlockIsSingleGets(block.readX, n, block.buffer.Length);
    block.ReadConcluded(n);
    fromSingles := GetsOneByOne(single, n, default);
  }
}
