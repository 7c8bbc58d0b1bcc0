/** A fixed array of cells used as a ring between a read and a write index.  Equal indices mean
    empty, so one cell always stays free. */
module Rings {
  import opened Common

  /** The cell `n` places after `start` in a ring of `w` cells. */
  function Slot(start: nat, n: nat, w: nat): (i: nat)
    requires start < w && n <= w
    ensures i < w
  {
    if start + n < w then start + n else start + n - w
  }

  lemma SlotIsRemainder(start: nat, n: nat, w: nat)
    requires start < w && n <= w
    ensures (start + n) % w == Slot(start, n, w)
  {
    RemainderIs(start + n, w, if start + n < w then 0 else 1, Slot(start, n, w));
  }

  /** The `n` elements stored from cell `start` on, read around the wrap. */
  function Ring<T>(cells: seq<T>, start: nat, n: nat): (r: seq<T>)
    requires start < |cells| && n <= |cells|
    ensures |r| == n
  {
    seq(n, i requires 0 <= i < n => cells[Slot(start, i, |cells|)])
  }

  /** Cells and indices hold exactly `content`, at least one cell staying free. */
  ghost predicate Holds<T>(cells: seq<T>, readX: nat, writeX: nat, content: seq<T>) {
    && readX < |cells| && |content| < |cells|
    && writeX == Slot(readX, |content|, |cells|)
    && Ring(cells, readX, |content|) == content
  }

  lemma HoldsAfterWrite<T>(cells: seq<T>, readX: nat, writeX: nat, content: seq<T>, val: T)
    requires Holds(cells, readX, writeX, content) && |content| + 1 < |cells|
    ensures (writeX + 1) % |cells| != readX
    ensures Holds(cells[writeX := val], readX, (writeX + 1) % |cells|, content + [val])
  {
    SlotIsRemainder(writeX, 1, |cells|);
    var after := cells[writeX := val];
    forall i | 0 <= i < |content| ensures after[Slot(readX, i, |cells|)] == content[i] {
      assert Ring(cells, readX, |content|)[i] == content[i];
    }
  }

  /** An element written into the last free cell, after which the reader jumps over `k` elements. */
  lemma HoldsAfterOverflow<T>(cells: seq<T>, readX: nat, writeX: nat, content: seq<T>, val: T, k: nat)
    requires Holds(cells, readX, writeX, content) && |content| + 1 == |cells|
    requires 0 < k <= |cells|
    ensures (writeX + 1) % |cells| == readX
    ensures cells[writeX := val][readX] == (content + [val])[0]
    ensures Holds(cells[writeX := val], (readX + k) % |cells|, readX, (content + [val])[k..])
  {
    SlotIsRemainder(writeX, 1, |cells|);
    SlotIsRemainder(readX, k, |cells|);
    var after := cells[writeX := val];
    forall i | 0 <= i < |content| + 1 ensures after[Slot(readX, i, |cells|)] == (content + [val])[i] {
      if i < |content| {
        assert Ring(cells, readX, |content|)[i] == content[i];
      }
    }
    var rest := (content + [val])[k..];
    assert Ring(after, Slot(readX, k, |cells|), |rest|) == rest;
  }

  /** Taking `k` elements off the front. */
  lemma HoldsAfterRead<T>(cells: seq<T>, readX: nat, writeX: nat, content: seq<T>, k: nat)
    requires Holds(cells, readX, writeX, content) && k <= |content|
    ensures content != [] ==> cells[readX] == content[0]
    ensures Holds(cells, (readX + k) % |cells|, writeX, content[k..])
  {
    SlotIsRemainder(readX, k, |cells|);
    if content != [] {
      assert Ring(cells, readX, |content|)[0] == content[0];
    }
    forall i | 0 <= i < |content[k..]|
      ensures cells[Slot(Slot(readX, k, |cells|), i, |cells|)] == content[k..][i]
    {
      assert Ring(cells, readX, |content|)[k + i] == content[k + i];
    }
  }

  /** The next index, without a remainder. */
  function Advance(index: nat, w: nat): nat {
    if index < w - 1 then index + 1 else 0
  }

  lemma AdvanceIsSlot(index: nat, w: nat)
    requires index < w
    ensures Advance(index, w) == Slot(index, 1, w) == (index + 1) % w
  {
    SlotIsRemainder(index, 1, w);
  }

  lemma FullAndEmpty<T>(cells: seq<T>, readX: nat, writeX: nat, content: seq<T>)
    requires Holds(cells, readX, writeX, content)
    ensures writeX < |cells|
    ensures readX == writeX <==> content == []
    ensures Advance(writeX, |cells|) == readX <==> |content| == |cells| - 1
    ensures |content| == if readX <= writeX then writeX - readX else |cells| - readX + writeX
  {
  }

  /** Storing into a cell beyond the content changes nothing. */
  lemma HoldsAfterFreeWrite<T>(cells: seq<T>, readX: nat, writeX: nat, content: seq<T>, n: nat, val: T)
    requires Holds(cells, readX, writeX, content) && |content| + n < |cells|
    ensures Holds(cells[Slot(writeX, n, |cells|) := val], readX, writeX, content)
  {
    var after := cells[Slot(writeX, n, |cells|) := val];
    forall i | 0 <= i < |content| ensures after[Slot(readX, i, |cells|)] == content[i] {
      assert Ring(cells, readX, |content|)[i] == content[i];
    }
  }

  /** What stands in the cells behind the content becomes content when the index moves on. */
  lemma HoldsAfterAppend<T>(cells: seq<T>, readX: nat, writeX: nat, content: seq<T>, data: seq<T>)
    requires Holds(cells, readX, writeX, content) && |content| + |data| < |cells|
    requires writeX + |data| <= |cells| && cells[writeX..writeX + |data|] == data
    ensures Holds(cells, readX, Slot(writeX, |data|, |cells|), content + data)
  {
    forall i | 0 <= i < |content + data| ensures cells[Slot(readX, i, |cells|)] == (content + data)[i] {
      if i < |content| {
        assert Ring(cells, readX, |content|)[i] == content[i];
      } else {
        assert cells[writeX..writeX + |data|][i - |content|] == data[i - |content|];
      }
    }
  }
}
