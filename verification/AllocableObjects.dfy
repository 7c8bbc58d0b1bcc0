/** A pool of reference-counted objects and the handles that count.  Objects are indices into the
    pool's buffer; the buffer itself plays no part. */
module AllocableObjects {
  import opened Common

  const COUNTER_RANGE: nat := 0x1_0000_0000

  /** What a handle refers to. */
  datatype Target = Nowhere | At(pool: Pool, index: nat)

  // ---------------------------------------------------------------- counting

  ghost function Holders(live: map<SharedPtr, Target>, t: Target): set<SharedPtr> {
    set h | h in live && live[h] == t
  }

  /** How many of the handles refer to `t`. */
  ghost function Count(live: map<SharedPtr, Target>, t: Target): nat {
    |Holders(live, t)|
  }

  lemma CountAfterUpdate(live: map<SharedPtr, Target>, h: SharedPtr, target: Target, t: Target)
    ensures Count(live[h := target], t) ==
            Count(live, t) - (if h in live && live[h] == t then 1 else 0) + (if target == t then 1 else 0)
  {
    HoldersAfterUpdate(live, h, target, t);
    WithOrWithout(Holders(live, t), h);
    WithOrWithout(Holders(live[h := target], t), h);
  }

  lemma HoldersAfterUpdate(live: map<SharedPtr, Target>, h: SharedPtr, target: Target, t: Target)
    ensures Holders(live[h := target], t) - {h} == Holders(live, t) - {h}
    ensures h in Holders(live[h := target], t) <==> target == t
  {
  }

  lemma WithOrWithout<T>(s: set<T>, x: T)
    ensures |s| == |s - {x}| + if x in s then 1 else 0
  {
    if x in s {
      assert s == (s - {x}) + {x};
    } else {
      assert s == s - {x};
    }
  }

  lemma CountAfterRemoval(live: map<SharedPtr, Target>, h: SharedPtr, t: Target)
    requires h in live
    ensures Count(live - {h}, t) == Count(live, t) - (if live[h] == t then 1 else 0)
  {
    var others := Holders(live, t) - {h};
    assert Holders(live, t) == if live[h] == t then others + {h} else others;
    assert Holders(live - {h}, t) == others;
  }

  ghost predicate HasHandle(live: map<SharedPtr, Target>, t: Target) {
    exists h :: h in live && live[h] == t
  }

  lemma CountIsZero(live: map<SharedPtr, Target>, t: Target)
    ensures Count(live, t) == 0 <==> !HasHandle(live, t)
  {
    if h :| h in live && live[h] == t {
      assert h in Holders(live, t);
    }
  }

  lemma CountAtMost(live: map<SharedPtr, Target>, t: Target)
    ensures Count(live, t) <= |live|
  {
    SubsetSize(Holders(live, t), live.Keys);
    assert |live.Keys| == |live|;
  }

  function Zeros(s: seq<nat>): nat {
    if s == [] then 0 else Zeros(s[..|s| - 1]) + if s[|s| - 1] == 0 then 1 else 0
  }

  lemma ZerosAfterUpdate(s: seq<nat>, i: nat, x: nat)
    requires i < |s|
    ensures Zeros(s[i := x]) == Zeros(s) - (if s[i] == 0 then 1 else 0) + (if x == 0 then 1 else 0)
  {
    var front := s[..|s| - 1];
    if i < |s| - 1 {
      assert s[i := x][..|s| - 1] == front[i := x];
      ZerosAfterUpdate(front, i, x);
    } else {
      assert s[i := x][..|s| - 1] == front;
    }
  }

  lemma ZerosOfNothing(s: seq<nat>)
    requires forall i :: 0 <= i < |s| ==> s[i] == 0
    ensures Zeros(s) == |s|
  {
  }

  // ---------------------------------------------------------------- the pool

  class Pool {
    const referenceCnt: array<nat>
    var freeCnt: int

    ghost predicate Valid()
      reads this, referenceCnt
    {
      && referenceCnt.Length < COUNTER_RANGE - 1
      && freeCnt == Zeros(referenceCnt[..])
    }

    constructor (length: nat)
      requires length < COUNTER_RANGE - 1
      ensures Valid() && fresh(referenceCnt) && referenceCnt.Length == length
      ensures forall i :: 0 <= i < length ==> referenceCnt[i] == 0
    {
      referenceCnt := new nat[length](_ => 0);
      freeCnt := length;
      new;
      ZerosOfNothing(referenceCnt[..]);
    }

    method Init()
      requires referenceCnt.Length < COUNTER_RANGE - 1
      modifies this`freeCnt, referenceCnt
      ensures Valid() && freeCnt == referenceCnt.Length
      ensures forall i :: 0 <= i < referenceCnt.Length ==> referenceCnt[i] == 0
    {
      freeCnt := referenceCnt.Length;
      for i := 0 to referenceCnt.Length
        invariant freeCnt == referenceCnt.Length
        invariant forall j :: 0 <= j < i ==> referenceCnt[j] == 0
      {
        referenceCnt[i] := 0;
      }
      ZerosOfNothing(referenceCnt[..]);
    }

    /** The first object without references, if there is one. */
    method AllocIndex() returns (ok: bool, index: nat)
      requires Valid()
      modifies this`freeCnt, referenceCnt
      ensures Valid()
      ensures ok <==> exists i :: 0 <= i < referenceCnt.Length && old(referenceCnt[i]) == 0
      ensures ok ==> index < referenceCnt.Length && old(referenceCnt[index]) == 0
                     && referenceCnt[..] == old(referenceCnt[..])[index := 1]
      ensures ok ==> forall i :: 0 <= i < index ==> old(referenceCnt[i]) != 0
      ensures !ok ==> unchanged(this) && unchanged(referenceCnt)
    {
      for i := 0 to referenceCnt.Length
        invariant forall j :: 0 <= j < i ==> referenceCnt[j] != 0
        invariant unchanged(this) && unchanged(referenceCnt)
      {
        if referenceCnt[i] == 0 {
          ZerosAfterUpdate(referenceCnt[..], i, 1);
          freeCnt := freeCnt - 1;
          referenceCnt[i] := 1;
          assert referenceCnt[..] == old(referenceCnt[..])[i := 1];
          return true, i;
        }
      }
      return false, 0;
    }

    /** The index of an item; `item` is its distance from the start of the buffer.  One item
        behind the end is taken for good; items in front of the buffer are refused. */
    method IndexOf(item: int) returns (ok: bool, index: nat)
      requires referenceCnt.Length < COUNTER_RANGE
      ensures item % COUNTER_RANGE != referenceCnt.Length ==>
                (ok <==> CounterOf(item) >= 0) && (ok ==> index == CounterOf(item))
      ensures 0 <= item < COUNTER_RANGE ==> index == item && (ok <==> item <= referenceCnt.Length)
      ensures referenceCnt.Length - COUNTER_RANGE < item < 0 ==> !ok
    {
      index := item % COUNTER_RANGE;
      ok := !(index > referenceCnt.Length);
    }

    /** The counter an item stands for; -1 for an item that is refused. */
    function CounterOf(item: int): int
      reads this
    {
      if item % COUNTER_RANGE < referenceCnt.Length then item % COUNTER_RANGE else -1
    }

    /** One reference less. The item behind the end, which `indexOf` takes for good, has no counter:
        the code would read and write outside the array for it. */
    method Free(item: int) returns (ok: bool)
      requires Valid() && item % COUNTER_RANGE != referenceCnt.Length
      modifies this`freeCnt, referenceCnt
      ensures Valid()
      ensures ok == (CounterOf(item) >= 0 && old(referenceCnt[..])[CounterOf(item)] >= 1)
      ensures referenceCnt[..] ==
              if ok then old(referenceCnt[..])[CounterOf(item) := old(referenceCnt[..])[CounterOf(item)] - 1] else old(referenceCnt[..])
    {
      var isOk, index := IndexOf(item);
      if !isOk {
        return false;
      }
      if referenceCnt[index] < 1 {
        return false;
      }
      ZerosAfterUpdate(referenceCnt[..], index, referenceCnt[index] - 1);
      referenceCnt[index] := referenceCnt[index] - 1;
      assert referenceCnt[..] == old(referenceCnt[..])[index := old(referenceCnt[index]) - 1];
      if referenceCnt[index] == 0 {
        freeCnt := freeCnt + 1;
      }
      return true;
    }

    /** One reference more; `ok` if the result is the item and not null. Counters wrap at 2^32, callers
        keep fewer references. */
    method CopyReference(item: int) returns (ok: bool)
      requires Valid() && item % COUNTER_RANGE != referenceCnt.Length
      requires CounterOf(item) >= 0 ==> referenceCnt[CounterOf(item)] + 1 < COUNTER_RANGE
      modifies referenceCnt
      ensures Valid()
      ensures ok == (CounterOf(item) >= 0 && old(referenceCnt[..])[CounterOf(item)] >= 1)
      ensures referenceCnt[..] ==
              if ok then old(referenceCnt[..])[CounterOf(item) := old(referenceCnt[..])[CounterOf(item)] + 1] else old(referenceCnt[..])
    {
      var isOk, index := IndexOf(item);
      if !isOk {
        return false;
      }
      if referenceCnt[index] == 0 {
        return false;
      }
      ZerosAfterUpdate(referenceCnt[..], index, referenceCnt[index] + 1);
      referenceCnt[index] := (referenceCnt[index] + 1) % COUNTER_RANGE;
      assert referenceCnt[..] == old(referenceCnt[..])[index := old(referenceCnt[index]) + 1];
      return true;
    }
  }

  // ---------------------------------------------------------------- pools and live handles

  ghost function Arrays(pools: set<Pool>): set<array<nat>> {
    set p <- pools :: p.referenceCnt
  }

  ghost predicate PoolsOk(pools: set<Pool>)
    reads pools, Arrays(pools)
  {
    && (forall p <- pools :: p.Valid())
    && (forall p, q :: p in pools && q in pools && p != q ==> p.referenceCnt != q.referenceCnt)
  }

  function Same(a: Target, b: Target): int {
    if a == b then 1 else 0
  }

  /** Every counter is the number of handles to its object, one handle to `minus` not counted and
      one to `plus` counted in addition. */
  ghost predicate Counted(pools: set<Pool>, live: map<SharedPtr, Target>, minus: Target, plus: Target)
    reads pools, Arrays(pools)
  {
    forall p, i {:trigger p.referenceCnt[i]} :: p in pools && 0 <= i < p.referenceCnt.Length ==>
      p.referenceCnt[i] == Count(live, At(p, i)) - Same(minus, At(p, i)) + Same(plus, At(p, i))
  }

  ghost predicate TargetOk(pools: set<Pool>, t: Target) {
    t.At? ==> t.pool in pools && t.index < t.pool.referenceCnt.Length
  }

  /** The live handles and what they refer to; every counter is the number of handles to its
      object, and the number of free objects is the number of zero counters. */
  ghost predicate World(pools: set<Pool>, live: map<SharedPtr, Target>)
    reads pools, Arrays(pools), live.Keys
  {
    && PoolsOk(pools)
    && Counted(pools, live, Nowhere, Nowhere)
    && (forall h <- live :: h.Refers(live[h]) && TargetOk(pools, live[h]))
  }

  /** Moving one handle from `t` to `target`. */
  lemma CountedAfterUpdate(pools: set<Pool>, live: map<SharedPtr, Target>, h: SharedPtr, target: Target)
    requires Counted(pools, live, if h in live then live[h] else Nowhere, target)
    ensures Counted(pools, live[h := target], Nowhere, Nowhere)
  {
    forall p, i | p in pools && 0 <= i < p.referenceCnt.Length
      ensures p.referenceCnt[i] == Count(live[h := target], At(p, i))
    {
      CountAfterUpdate(live, h, target, At(p, i));
    }
  }

  /** The counters being right again, so is the world, if the other handles are as they were. */
  lemma WorldAfterUpdate(pools: set<Pool>, live: map<SharedPtr, Target>, h: SharedPtr, target: Target)
    requires PoolsOk(pools) && Counted(pools, live, if h in live then live[h] else Nowhere, target)
    requires h.Refers(target) && TargetOk(pools, target)
    requires forall g <- live :: g != h ==> g.Refers(live[g]) && TargetOk(pools, live[g])
    ensures World(pools, live[h := target])
  {
    CountedAfterUpdate(pools, live, h, target);
  }

  class SharedPtr {
    var objectsPool: Pool?
    var objectPointer: int  // index of the object, -1 for none

    ghost predicate Refers(t: Target)
      reads this
    {
      match t
      case Nowhere => objectsPool == null && objectPointer == -1
      case At(p, i) => objectsPool == p && objectPointer == i
    }

    constructor ()
      ensures Refers(Nowhere)
    {
      objectsPool, objectPointer := null, -1;
    }

    constructor Full(pool: Pool, pointer: nat)
      ensures Refers(At(pool, pointer))
    {
      objectsPool, objectPointer := pool, pointer;
    }

    /** Gives back the reference held, if any. */
    method FreeReference(ghost t: Target, ghost pools: set<Pool>, ghost live: map<SharedPtr, Target>)
      requires Refers(t) && TargetOk(pools, t)
      requires PoolsOk(pools) && Counted(pools, live, Nowhere, Nowhere)
      requires t.At? ==> 0 < Count(live, t)
      modifies pools, Arrays(pools)
      ensures PoolsOk(pools) && Counted(pools, live, t, Nowhere)
    {
      if objectsPool != null {
        assert t.pool.referenceCnt[t.index] == Count(live, t);
        ghost var cnt := t.pool.referenceCnt[..];
        var _ := objectsPool.Free(objectPointer);
        forall p, i | p in pools && 0 <= i < p.referenceCnt.Length
          ensures p.referenceCnt[i] == Count(live, At(p, i)) - Same(t, At(p, i)) + Same(Nowhere, At(p, i))
        {
          if p == t.pool {
            assert p.referenceCnt[..][i] == cnt[t.index := cnt[t.index] - 1][i];
          }
        }
      }
    }

    /** Takes one more reference to the object referred to, if any. */
    method TakeReference(ghost t: Target, ghost minus: Target, ghost pools: set<Pool>, ghost live: map<SharedPtr, Target>)
      requires Refers(t) && TargetOk(pools, t)
      requires PoolsOk(pools) && Counted(pools, live, minus, Nowhere)
      requires t.At? ==> Same(minus, t) < Count(live, t)
      requires |live| + 1 < COUNTER_RANGE
      modifies pools, Arrays(pools)
      ensures PoolsOk(pools) && Counted(pools, live, minus, t)
    {
      if objectsPool != null {
        assert t.pool.referenceCnt[t.index] == Count(live, t) - Same(minus, t);
        CountAtMost(live, t);
        ghost var cnt := t.pool.referenceCnt[..];
        var _ := objectsPool.CopyReference(objectPointer);
        forall p, i | p in pools && 0 <= i < p.referenceCnt.Length
          ensures p.referenceCnt[i] == Count(live, At(p, i)) - Same(minus, At(p, i)) + Same(t, At(p, i))
        {
          if p == t.pool {
            assert p.referenceCnt[..][i] == cnt[t.index := cnt[t.index] + 1][i];
          }
        }
      }
    }

    /** The body of the assignment operator. */
    method Retarget(other: SharedPtr, ghost mine: Target, ghost theirs: Target,
                    ghost pools: set<Pool>, ghost live: map<SharedPtr, Target>)
      requires this != other && this in live && other in live && live[this] == mine && live[other] == theirs
      requires Refers(mine) && other.Refers(theirs) && TargetOk(pools, mine) && TargetOk(pools, theirs)
      requires PoolsOk(pools) && Counted(pools, live, Nowhere, Nowhere) && |live| + 1 < COUNTER_RANGE
      modifies this, pools, Arrays(pools)
      ensures PoolsOk(pools) && Counted(pools, live, mine, theirs) && Refers(theirs)
    {
      EnoughHolders(live, this, other);
      FreeReference(mine, pools, live);
      objectsPool := other.objectsPool;
      objectPointer := other.objectPointer;
      TakeReference(theirs, mine, pools, live);
    }

    lemma EnoughHolders(live: map<SharedPtr, Target>, a: SharedPtr, b: SharedPtr)
      requires a in live && b in live && a != b
      ensures 0 < Count(live, live[a]) && Same(live[a], live[b]) < Count(live, live[b])
    {
      assert a in Holders(live, live[a]) && b in Holders(live, live[b]);
      if live[a] == live[b] {
        SubsetSize({a, b}, Holders(live, live[b]));
      }
    }

    /** The assignment operator; the two handles may be the same or refer to the same object. */
    method Assign(other: SharedPtr, ghost pools: set<Pool>, ghost live: map<SharedPtr, Target>)
      returns (ghost after: map<SharedPtr, Target>)
      requires World(pools, live) && this in live && other in live && |live| + 1 < COUNTER_RANGE
      modifies this, pools, Arrays(pools)
      ensures World(pools, after) && after == live[this := live[other]]
    {
      after := live[this := live[other]];
      if this != other {
        Retarget(other, live[this], live[other], pools, live);
        WorldAfterUpdate(pools, live, this, live[other]);
      } else {
        assert after == live;
      }
    }

    /** The copy constructor. */
    constructor Copy(other: SharedPtr, ghost pools: set<Pool>, ghost live: map<SharedPtr, Target>)
      requires World(pools, live) && other in live && |live| + 1 < COUNTER_RANGE
      modifies pools, Arrays(pools)
      ensures World(pools, live[this := live[other]])
    {
      objectsPool := other.objectsPool;
      objectPointer := other.objectPointer;
      new;
      ghost var t := live[other];
      assert other in Holders(live, t);
      TakeReference(t, Nowhere, pools, live);
      WorldAfterUpdate(pools, live, this, t);
    }

    method Clear(ghost pools: set<Pool>, ghost live: map<SharedPtr, Target>) returns (ghost after: map<SharedPtr, Target>)
      requires World(pools, live) && this in live
      modifies this, pools, Arrays(pools)
      ensures World(pools, after) && after == live[this := Nowhere]
    {
      after := live[this := Nowhere];
      assert this in Holders(live, live[this]);
      FreeReference(live[this], pools, live);
      objectsPool := null;
      objectPointer := -1;
      WorldAfterUpdate(pools, live, this, Nowhere);
    }

    /** The destructor: the handle is no longer among the live ones. */
    method Destroy(ghost pools: set<Pool>, ghost live: map<SharedPtr, Target>) returns (ghost after: map<SharedPtr, Target>)
      requires World(pools, live) && this in live
      modifies pools, Arrays(pools)
      ensures World(pools, after) && after == live - {this}
    {
      after := live - {this};
      assert this in Holders(live, live[this]);
      FreeReference(live[this], pools, live);
      CountedAfterRemoval(pools, live, this);
    }
  }

  lemma CountedAfterRemoval(pools: set<Pool>, live: map<SharedPtr, Target>, h: SharedPtr)
    requires h in live && Counted(pools, live, live[h], Nowhere)
    ensures Counted(pools, live - {h}, Nowhere, Nowhere)
  {
    forall p, i | p in pools && 0 <= i < p.referenceCnt.Length
      ensures p.referenceCnt[i] == Count(live - {h}, At(p, i))
    {
      CountAfterRemoval(live, h, At(p, i));
    }
  }

  /** Allocation: fails exactly when every object has a handle, and otherwise hands out the first
      object that has none. */
  method Alloc(pool: Pool, ghost pools: set<Pool>, ghost live: map<SharedPtr, Target>)
    returns (ok: bool, handle: SharedPtr, ghost i: nat, ghost after: map<SharedPtr, Target>)
    requires World(pools, live) && pool in pools
    modifies pools, Arrays(pools)
    ensures World(pools, after) && fresh(handle)
    ensures ok <==> exists j: nat :: j < pool.referenceCnt.Length && !HasHandle(live, At(pool, j))
    ensures ok ==>
              && i < pool.referenceCnt.Length && after == live[handle := At(pool, i)]
              && !HasHandle(live, At(pool, i))
              && forall j: nat :: j < i ==> HasHandle(live, At(pool, j))
    ensures !ok ==> after == live[handle := Nowhere]
  {
    forall j: nat | j < pool.referenceCnt.Length ensures pool.referenceCnt[j] == 0 <==> !HasHandle(live, At(pool, j)) {
      CountIsZero(live, At(pool, j));
    }
    ghost var cnt := pool.referenceCnt[..];
    var index;
    ok, index := pool.AllocIndex();
    i := index;
    if !ok {
      handle := new SharedPtr();
      after := live[handle := Nowhere];
      WorldAfterUpdate(pools, live, handle, Nowhere);
      return;
    }
    ghost var t := At(pool, index);
    forall p, j | p in pools && 0 <= j < p.referenceCnt.Length
      ensures p.referenceCnt[j] == Count(live, At(p, j)) - Same(Nowhere, At(p, j)) + Same(t, At(p, j))
    {
      if p == pool {
        assert p.referenceCnt[..][j] == cnt[index := 1][j];
      }
    }
    handle := new SharedPtr.Full(pool, index);
    after := live[handle := t];
    WorldAfterUpdate(pools, live, handle, t);
  }

  ghost function ZeroIndices(s: seq<nat>): set<nat> {
    set j: nat | j < |s| && s[j] == 0
  }

  lemma ZerosIsCount(s: seq<nat>)
    ensures Zeros(s) == |ZeroIndices(s)|
  {
    if s == [] {
      assert ZeroIndices(s) == {};
    } else {
      var front, n := s[..|s| - 1], |s| - 1;
      ZerosIsCount(front);
      assert ZeroIndices(s) == if s[n] == 0 then ZeroIndices(front) + {n} else ZeroIndices(front);
    }
  }

  /** `getNumOfFreeItems` is the number of objects no live handle refers to. */
  lemma FreeItems(pools: set<Pool>, live: map<SharedPtr, Target>, pool: Pool)
    requires World(pools, live) && pool in pools
    ensures pool.freeCnt == |set j: nat | j < pool.referenceCnt.Length && !HasHandle(live, At(pool, j))|
  {
    ZerosIsCount(pool.referenceCnt[..]);
    forall j: nat | j < pool.referenceCnt.Length ensures pool.referenceCnt[..][j] == 0 <==> !HasHandle(live, At(pool, j)) {
      CountIsZero(live, At(pool, j));
    }
    assert ZeroIndices(pool.referenceCnt[..]) == set j: nat | j < pool.referenceCnt.Length && !HasHandle(live, At(pool, j));
  }

  /** Resetting a pool keeps the accounts right exactly when no handle refers to its objects. */
  method Reset(pool: Pool, ghost pools: set<Pool>, ghost live: map<SharedPtr, Target>)
    requires World(pools, live) && pool in pools
    modifies pool, pool.referenceCnt
    ensures World(pools, live) <==> forall j: nat :: j < pool.referenceCnt.Length ==> !HasHandle(live, At(pool, j))
  {
    pool.Init();
    forall j: nat | j < pool.referenceCnt.Length ensures Count(live, At(pool, j)) == 0 <==> !HasHandle(live, At(pool, j)) {
      CountIsZero(live, At(pool, j));
    }
    assert PoolsOk(pools) by {
      assert forall p <- pools :: p != pool ==> unchanged(p) && unchanged(p.referenceCnt) && p.Valid();
    }
    if forall j: nat :: j < pool.referenceCnt.Length ==> !HasHandle(live, At(pool, j)) {
      forall p, j | p in pools && 0 <= j < p.referenceCnt.Length
        ensures p.referenceCnt[j] == Count(live, At(p, j)) - Same(Nowhere, At(p, j)) + Same(Nowhere, At(p, j))
      {
        if p == pool {
          assert Count(live, At(pool, j)) == 0;
        } else {
          assert p.referenceCnt[j] == old(p.referenceCnt[j]);
        }
      }
    } else {
      var j: nat :| j < pool.referenceCnt.Length && HasHandle(live, At(pool, j));
      assert pool.referenceCnt[j] == 0 && Count(live, At(pool, j)) > 0;
    }
  }
}
