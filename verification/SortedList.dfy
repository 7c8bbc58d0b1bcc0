/** Sorted lists of chainable entries: circular, doubly linked through the entries themselves,
    with a sentinel that is both head and tail.  An entry is in at most one list. */
module SortedLists {
  import opened Common

  // ---------------------------------------------------------------- sequences

  function RemoveAt<T>(s: seq<T>, k: nat): seq<T>
    requires k < |s|
  {
    s[..k] + s[k + 1..]
  }

  function InsertAt<T>(s: seq<T>, k: nat, x: T): seq<T>
    requires k <= |s|
  {
    s[..k] + [x] + s[k..]
  }

  /** `s` without its first `x`. */
  function Without<T(==)>(s: seq<T>, x: T): seq<T> {
    if s == [] then [] else if s[0] == x then s[1..] else [s[0]] + Without(s[1..], x)
  }

  lemma WithoutAt<T>(s: seq<T>, k: nat)
    requires k < |s| && NoDuplicates(s)
    ensures Without(s, s[k]) == RemoveAt(s, k)
  {
    if k > 0 {
      WithoutAt(s[1..], k - 1);
    }
  }

  lemma WithoutAbsent<T>(s: seq<T>, x: T)
    requires x !in s
    ensures Without(s, x) == s
  {
  }

  lemma RemoveAtKeepsDistinct<T>(s: seq<T>, k: nat)
    requires k < |s| && NoDuplicates(s)
    ensures NoDuplicates(RemoveAt(s, k)) && s[k] !in RemoveAt(s, k)
    ensures forall y <- RemoveAt(s, k) :: y in s
  {
  }

  lemma InsertAtKeepsDistinct<T>(s: seq<T>, k: nat, x: T)
    requires k <= |s| && NoDuplicates(s) && x !in s
    ensures NoDuplicates(InsertAt(s, k, x))
    ensures forall y <- InsertAt(s, k, x) :: y == x || y in s
  {
  }

  lemma RemoveWithin<T>(h: T, s: seq<T>, k: nat)
    requires k < |s|
    ensures [h] + RemoveAt(s, k) + [h] == RemoveAt([h] + s + [h], k + 1)
  {
  }

  lemma InsertWithin<T>(h: T, s: seq<T>, k: nat, x: T)
    requires k <= |s|
    ensures [h] + InsertAt(s, k, x) + [h] == InsertAt([h] + s + [h], k + 1, x)
  {
  }

  lemma WithoutKeepsRest<T>(s: seq<T>, x: T)
    requires NoDuplicates(s)
    ensures x !in Without(s, x)
    ensures forall y <- Without(s, x) :: y in s
    ensures forall y <- s :: y != x ==> y in Without(s, x)
  {
    if s != [] && s[0] != x {
      WithoutKeepsRest(s[1..], x);
    }
  }

  // ---------------------------------------------------------------- entries and lists

  class SortedChainable {
    var sortField: int
    var currentList: SortedList?
    var next: SortedChainable?
    var prev: SortedChainable?

    constructor ()
      ensures sortField == 0 && currentList == null && next == null && prev == null
    {
      sortField, currentList, next, prev := 0, null, null, null;
    }
  }

  class SortedList {
    const headAndTail: SortedChainable
    var numberOfElements: int
    ghost var elems: seq<SortedChainable>

    /** The sentinel, the elements in order, and the sentinel again. */
    ghost function Chain(): seq<SortedChainable>
      reads this
    {
      [headAndTail] + elems + [headAndTail]
    }

    ghost predicate Linked(c: seq<SortedChainable>)
      reads c
    {
      forall i :: 0 <= i < |c| - 1 ==> c[i].next == c[i + 1] && c[i + 1].prev == c[i]
    }

    ghost predicate Sorted()
      reads this, elems
    {
      forall i, j :: 0 <= i < j < |elems| ==> elems[i].sortField <= elems[j].sortField
    }

    ghost predicate Valid()
      reads this, headAndTail, elems
    {
      WellFormed() && Sorted()
    }

    /** All but the order of the keys. */
    ghost predicate WellFormed()
      reads this, headAndTail, elems
    {
      && headAndTail !in elems && NoDuplicates(elems)
      && headAndTail.currentList == null && headAndTail.sortField == 0
      && (forall e <- elems :: e.currentList == this)
      && numberOfElements == |elems|
      && Linked(Chain())
    }

    constructor ()
      ensures Valid() && elems == [] && fresh(headAndTail)
    {
      headAndTail := new SortedChainable();
      numberOfElements := 0;
      elems := [];
      new;
      headAndTail.next := headAndTail;
      headAndTail.prev := headAndTail;
    }

    /** Only the sentinel occurs twice in the chain, at its ends. */
    lemma ChainDistinct()
      requires headAndTail !in elems && NoDuplicates(elems)
      ensures forall i, j :: 0 <= i < j < |Chain()| && Chain()[i] == Chain()[j] ==> i == 0 && j == |Chain()| - 1
    {
    }

    /** The pointer surgery of `remove`. */
    method Unlink(entry: SortedChainable, ghost c: seq<SortedChainable>, ghost k: nat,
                  ghost before: SortedChainable, ghost after: SortedChainable)
      requires 0 < k < |c| - 1 && c[k - 1] == before && c[k] == entry && c[k + 1] == after && Linked(c)
      requires forall i, j :: 0 <= i < j < |c| && c[i] == c[j] ==> i == 0 && j == |c| - 1
      modifies before`next, after`prev
      ensures Linked(RemoveAt(c, k))
      ensures before != entry && after != entry
    {
      assert c[k - 1].next == entry && entry.next == c[k + 1] && entry.prev == c[k - 1];
      entry.next.prev := entry.prev;
      entry.prev.next := entry.next;
      ghost var d := RemoveAt(c, k);
      forall i | 0 <= i < |d| - 1 ensures d[i].next == d[i + 1] && d[i + 1].prev == d[i] {
        if i < k - 1 {
          assert d[i] == c[i] && d[i + 1] == c[i + 1];
        } else if i > k - 1 {
          assert d[i] == c[i + 1] && d[i + 1] == c[i + 2];
        }
      }
    }

    method RemoveElement(entry: SortedChainable, ghost k: nat)
      requires Valid() && k < |elems| && elems[k] == entry
      modifies this`numberOfElements, this`elems
      modifies headAndTail`next, headAndTail`prev, elems
      ensures Valid() && elems == RemoveAt(old(elems), k)
      ensures entry.currentList == null && entry.next == old(entry.next) && entry.prev == old(entry.prev)
      ensures forall e <- old(elems) :: e.sortField == old(e.sortField)
    {
      ghost var c := Chain();
      ChainDistinct();
      RemoveAtKeepsDistinct(elems, k);
      RemoveWithin(headAndTail, elems, k);
      entry.currentList := null;
      Unlink(entry, c, k + 1, c[k], c[k + 2]);
      numberOfElements := numberOfElements - 1;
      elems := RemoveAt(elems, k);
    }

    /** The pointer surgery of `insertBefore`. */
    method Link(beforeThis: SortedChainable, newEntry: SortedChainable, ghost c: seq<SortedChainable>, ghost k: nat,
                ghost before: SortedChainable)
      requires 0 < k < |c| && c[k - 1] == before && c[k] == beforeThis && Linked(c) && newEntry !in c
      requires forall i, j :: 0 <= i < j < |c| && c[i] == c[j] ==> i == 0 && j == |c| - 1
      modifies before`next, beforeThis`prev, newEntry`next, newEntry`prev
      ensures Linked(InsertAt(c, k, newEntry))
    {
      assert beforeThis.prev == before;
      newEntry.next := beforeThis;
      newEntry.prev := beforeThis.prev;
      beforeThis.prev.next := newEntry;
      beforeThis.prev := newEntry;
      ghost var d := InsertAt(c, k, newEntry);
      forall i | 0 <= i < |d| - 1 ensures d[i].next == d[i + 1] && d[i + 1].prev == d[i] {
        if i < k - 1 {
          assert d[i] == c[i] && d[i + 1] == c[i + 1];
        } else if i > k {
          assert d[i] == c[i - 1] && d[i + 1] == c[i];
        }
      }
    }

    /** `newEntry` fits, by its key, in front of element `k`. */
    ghost predicate Fits(newEntry: SortedChainable, k: nat)
      reads this, elems, newEntry
    {
      && k <= |elems|
      && (forall i :: 0 <= i < k ==> elems[i].sortField <= newEntry.sortField)
      && (forall i :: k <= i < |elems| ==> newEntry.sortField <= elems[i].sortField)
    }

    lemma InsertedInOrder(s: seq<SortedChainable>, k: nat, x: SortedChainable)
      requires k <= |s|
      requires forall a, b :: 0 <= a < b < |s| ==> s[a].sortField <= s[b].sortField
      requires forall a :: 0 <= a < k ==> s[a].sortField <= x.sortField
      requires forall a :: k <= a < |s| ==> x.sortField <= s[a].sortField
      ensures forall i, j :: 0 <= i < j < |InsertAt(s, k, x)| ==>
                InsertAt(s, k, x)[i].sortField <= InsertAt(s, k, x)[j].sortField
    {
    }

    /** `insertBefore`, whatever the keys are. */
    method InsertAnywhere(beforeThis: SortedChainable, newEntry: SortedChainable, ghost k: nat)
      requires WellFormed() && k <= |elems| && beforeThis == Chain()[k + 1]
      requires newEntry !in elems && newEntry != headAndTail
      modifies this`numberOfElements, this`elems
      modifies headAndTail`next, headAndTail`prev, elems, newEntry
      ensures WellFormed() && elems == InsertAt(old(elems), k, newEntry)
      ensures newEntry.sortField == old(newEntry.sortField)
      ensures forall i :: 0 <= i < |old(elems)| ==> old(elems)[i].sortField == old(elems[i].sortField)
    {
      ghost var c := Chain();
      ChainDistinct();
      InsertAtKeepsDistinct(elems, k, newEntry);
      InsertWithin(headAndTail, elems, k, newEntry);
      newEntry.currentList := this;
      Link(beforeThis, newEntry, c, k + 1, c[k]);
      numberOfElements := numberOfElements + 1;
      elems := InsertAt(elems, k, newEntry);
    }

    method InsertBefore(beforeThis: SortedChainable, newEntry: SortedChainable, ghost k: nat)
      requires Valid() && k <= |elems| && beforeThis == Chain()[k + 1]
      requires newEntry !in elems && newEntry != headAndTail && Fits(newEntry, k)
      modifies this`numberOfElements, this`elems
      modifies headAndTail`next, headAndTail`prev, elems, newEntry
      ensures Valid() && elems == InsertAt(old(elems), k, newEntry)
      ensures newEntry.sortField == old(newEntry.sortField)
      ensures forall e <- old(elems) :: e.sortField == old(e.sortField)
    {
      InsertAnywhere(beforeThis, newEntry, k);
      InsertedInOrder(old(elems), k, newEntry);
    }

    // -------------------------------------------------------------- operations

    method EndOfList(item: SortedChainable?) returns (end: bool)
      ensures end == (item == null || item == headAndTail)
    {
      end := item == null || item == headAndTail;
    }

    method GetFirst() returns (entry: SortedChainable?)
      requires Valid()
      ensures entry == if elems == [] then null else elems[0]
    {
      assert headAndTail.next == Chain()[1] && headAndTail == Chain()[0];
      entry := if headAndTail.next == headAndTail then null else headAndTail.next;
    }

    method GetLast() returns (entry: SortedChainable?)
      requires Valid()
      ensures entry == if elems == [] then null else elems[|elems| - 1]
    {
      assert headAndTail == Chain()[|elems| + 1] && headAndTail.prev == Chain()[|elems|];
      entry := if headAndTail.prev == headAndTail then null else headAndTail.prev;
    }

    /** The key an appended entry must not stay below. */
    ghost function LastKey(): int
      reads this, elems
    {
      if elems == [] then 0 else elems[|elems| - 1].sortField
    }

    /** The first entry with the given key. */
    method Find(sortItem: int) returns (entry: SortedChainable?)
      requires Valid()
      ensures entry == null <==> forall e <- elems :: e.sortField != sortItem
      ensures entry != null ==>
                exists k :: 0 <= k < |elems| && elems[k] == entry && entry.sortField == sortItem
                         && forall j :: 0 <= j < k ==> elems[j].sortField != sortItem
    {
      var iter := GetFirst();
      ghost var i := 0;
      var end := EndOfList(iter);
      while !end
        invariant 0 <= i <= |elems|
        invariant end <==> i == |elems|
        invariant !end ==> iter == elems[i]
        invariant forall j :: 0 <= j < i ==> elems[j].sortField != sortItem
        decreases |elems| - i
      {
        if iter.sortField == sortItem {
          return iter;
        }
        assert Chain()[i + 1] == iter && iter.next == Chain()[i + 2];
        iter := iter.next;
        i := i + 1;
        end := EndOfList(iter);
      }
      return null;
    }

    method Remove(entry: SortedChainable?) returns (ok: bool)
      requires Valid() && (entry != null && entry.currentList == this ==> entry in elems)
      modifies this`numberOfElements, this`elems, headAndTail`next, headAndTail`prev, elems
      ensures Valid()
      ensures ok == (entry != null && old(entry.currentList) == this)
      ensures elems == if ok then Without<SortedChainable>(old(elems), entry) else old(elems)
      ensures ok ==> entry.currentList == null && entry.next == old(entry.next)
      ensures forall e <- old(elems) :: e.sortField == old(e.sortField)
    {
      if entry == null || entry.currentList != this || entry == headAndTail {
        return false;
      }
      ghost var k :| 0 <= k < |elems| && elems[k] == entry;
      WithoutAt<SortedChainable>(elems, k);
      RemoveElement(entry, k);
      return true;
    }

    method GetAndRemoveTheFirst() returns (entry: SortedChainable?)
      requires Valid()
      modifies this`numberOfElements, this`elems, headAndTail`next, headAndTail`prev, elems
      ensures Valid()
      ensures if old(elems) == [] then entry == null && elems == []
              else entry == old(elems)[0] && entry.currentList == null && elems == old(elems)[1..]
      ensures forall e <- old(elems) :: e.sortField == old(e.sortField)
    {
      entry := GetFirst();
      var _ := Remove(entry);
    }

    /** `l` shares neither sentinel nor entries with this list. */
    ghost predicate Apart(l: SortedList)
      reads this, l
    {
      && l != this && l.headAndTail != headAndTail
      && l.headAndTail !in elems && headAndTail !in l.elems
      && forall e <- l.elems :: e !in elems
    }

    /** The list an entry is to be taken from is a list apart from this one, or this one. */
    ghost predicate MayTake(entry: SortedChainable)
      reads this, entry, entry.currentList
      reads if entry.currentList == null then {} else {entry.currentList.headAndTail}
      reads if entry.currentList == null then [] else entry.currentList.elems
    {
      entry.currentList != null ==>
        var l := entry.currentList;
        entry in l.elems && entry != headAndTail && (l == this || (l.Valid() && Apart(l)))
    }

    /** Everything an insertion of `entry` may change. */
    ghost function Touched(entry: SortedChainable): set<object>
      reads this, entry, entry.currentList
    {
      {this, headAndTail, entry} + (set e <- elems)
      + (if entry.currentList == null then {}
         else {entry.currentList, entry.currentList.headAndTail} + (set e <- entry.currentList.elems))
    }

    /** Takes `entry` out of another list. */
    method TakeFrom(l: SortedList, entry: SortedChainable)
      requires Valid() && l.Valid() && Apart(l) && entry.currentList == l && entry in l.elems
      modifies l`numberOfElements, l`elems, l.headAndTail`next, l.headAndTail`prev, l.elems
      ensures Valid() && elems == old(elems) && entry !in elems
      ensures entry.currentList == null && l.Valid() && Apart(l) && l.elems == Without(old(l.elems), entry)
      ensures forall e <- old(l.elems) :: e.sortField == old(e.sortField) && (e != entry ==> e in l.elems)
    {
      WithoutKeepsRest(l.elems, entry);
      ghost var c := Chain();
      assert forall x <- c :: x !in l.elems && x != l.headAndTail;
      var _ := l.Remove(entry);
      forall i | 0 <= i < |c| ensures unchanged(c[i]) {
        assert c[i] in c;
      }
      assert c == Chain() && old(Linked(c));
    }

    /** Takes `entry` out of whatever list it is in. */
    method TakeOut(entry: SortedChainable)
      requires Valid() && MayTake(entry) && entry != headAndTail
      modifies Touched(entry)
      ensures Valid() && elems == Without(old(elems), entry) && entry !in elems
      ensures forall e <- elems :: e in old(elems)
      ensures forall e <- old(elems) :: e != entry ==> e in elems
      ensures entry.currentList == null
      ensures var l := old(entry.currentList);
              l != null && l != this ==>
                l.Valid() && Apart(l) && l.elems == Without(old(entry.currentList.elems), entry)
                && forall e <- old(entry.currentList.elems) :: e.sortField == old(e.sortField) && (e != entry ==> e in l.elems)
      ensures forall e <- old(elems) :: e.sortField == old(e.sortField)
    {
      var l := entry.currentList;
      WithoutKeepsRest(elems, entry);
      if l == null {
        WithoutAbsent(elems, entry);
      } else if l == this {
        var _ := Remove(entry);
      } else {
        WithoutAbsent(elems, entry);
        TakeFrom(l, entry);
      }
    }

    /** `insertBefore`, with a list apart from this one looking on. */
    method InsertBeforeBeside(beforeThis: SortedChainable, newEntry: SortedChainable, ghost k: nat, ghost l: SortedList?)
      requires Valid() && k <= |elems| && beforeThis == Chain()[k + 1]
      requires newEntry !in elems && newEntry != headAndTail && Fits(newEntry, k)
      requires l != null ==> l.Valid() && Apart(l) && newEntry !in l.elems && newEntry != l.headAndTail
      modifies this`numberOfElements, this`elems
      modifies headAndTail`next, headAndTail`prev, elems, newEntry
      ensures Valid() && elems == InsertAt(old(elems), k, newEntry)
      ensures newEntry.sortField == old(newEntry.sortField)
      ensures forall e <- old(elems) :: e.sortField == old(e.sortField)
      ensures l != null ==> l.Valid() && l.elems == old(l.elems) && forall e <- l.elems :: e.sortField == old(e.sortField)
    {
      InsertBefore(beforeThis, newEntry, k);
      assert l != null ==> unchanged(l) && unchanged(l.headAndTail) && forall e <- l.elems :: unchanged(e);
      if l != null {
        Undisturbed(l);
      }
    }

    /** The end of `append`: the entry is in no list. */
    method PlaceLast(newEntry: SortedChainable, sortVal: int, ghost l: SortedList?)
      requires Valid() && newEntry !in elems && newEntry != headAndTail
      requires forall e <- elems :: e.sortField <= sortVal
      requires l != null ==> l.Valid() && Apart(l) && newEntry !in l.elems && newEntry != l.headAndTail
      modifies this`numberOfElements, this`elems
      modifies headAndTail`next, headAndTail`prev, elems, newEntry
      ensures Valid() && elems == old(elems) + [newEntry] && newEntry.sortField == sortVal
      ensures forall e <- old(elems) :: e.sortField == old(e.sortField)
      ensures l != null ==> l.Valid() && l.elems == old(l.elems) && forall e <- l.elems :: e.sortField == old(e.sortField)
    {
      Detached(newEntry, sortVal, l);
      newEntry.currentList := this;
      InsertBeforeBeside(headAndTail, newEntry, |elems|, l);
    }

    /** Setting the key of an entry that is in no list disturbs no list. */
    method Detached(newEntry: SortedChainable, sortVal: int, ghost l: SortedList?)
      requires Valid() && newEntry !in elems && newEntry != headAndTail
      requires l != null ==> l.Valid() && newEntry !in l.elems && newEntry != l.headAndTail
      modifies newEntry`sortField
      ensures Valid() && newEntry.sortField == sortVal
      ensures l != null ==> l.Valid()
    {
      newEntry.sortField := sortVal;
    }

    /** A list `l` that the entry has been taken from: well-formed, the rest in order. */
    ghost predicate TakenFrom(l: SortedList, before: seq<SortedChainable>, entry: SortedChainable)
      reads l, l.headAndTail, l.elems
    {
      l.Valid() && l.elems == Without(before, entry)
    }

    method Append(newEntry: SortedChainable?, sortVal: int) returns (ok: bool)
      requires Valid() && (newEntry != null ==> MayTake(newEntry))
      modifies if newEntry == null then {} else Touched(newEntry)
      ensures Valid()
      ensures ok == (newEntry != null && newEntry != headAndTail && sortVal >= old(LastKey()))
      ensures !ok && newEntry != null ==> unchanged(old(Touched(newEntry)))
      ensures ok ==> elems == Without<SortedChainable>(old(elems), newEntry) + [newEntry] && newEntry.sortField == sortVal
      ensures forall e <- old(elems) :: e != newEntry ==> e.sortField == old(e.sortField)
      ensures ok && old(newEntry.currentList) != null && old(newEntry.currentList) != this ==>
                TakenFrom(old(newEntry.currentList), old(newEntry.currentList.elems), newEntry)
                && forall e <- old(newEntry.currentList.elems) :: e != newEntry ==> e.sortField == old(e.sortField)
    {
      if newEntry == null || newEntry == headAndTail {
        return false;
      }
      assert headAndTail == Chain()[|elems| + 1] && headAndTail.prev == Chain()[|elems|];
      if sortVal < headAndTail.prev.sortField {
        return false;
      }
      assert forall e <- elems :: e.sortField <= LastKey();
      ghost var l := newEntry.currentList;
      TakeOut(newEntry);
      PlaceLast(newEntry, sortVal, if l == this then null else l);
      return true;
    }

    /** Like `Append`, the key raised to the last one if it is smaller. */
    method AppendForce(newEntry: SortedChainable?, sortVal: int) returns (ok: bool)
      requires Valid() && (newEntry != null ==> MayTake(newEntry))
      modifies if newEntry == null then {} else Touched(newEntry)
      ensures Valid()
      ensures ok == (newEntry != null && newEntry != headAndTail)
      ensures !ok && newEntry != null ==> unchanged(old(Touched(newEntry)))
      ensures ok ==> elems == Without<SortedChainable>(old(elems), newEntry) + [newEntry]
                     && newEntry.sortField == if sortVal < old(LastKey()) then old(LastKey()) else sortVal
      ensures forall e <- old(elems) :: e != newEntry ==> e.sortField == old(e.sortField)
      ensures ok && old(newEntry.currentList) != null && old(newEntry.currentList) != this ==>
                TakenFrom(old(newEntry.currentList), old(newEntry.currentList.elems), newEntry)
                && forall e <- old(newEntry.currentList.elems) :: e != newEntry ==> e.sortField == old(e.sortField)
    {
      assert headAndTail == Chain()[|elems| + 1] && headAndTail.prev == Chain()[|elems|];
      var key := sortVal;
      if key < headAndTail.prev.sortField {
        key := headAndTail.prev.sortField;
      }
      ok := Append(newEntry, key);
    }

    /** `appendForce` of an entry in no list, with a list apart from this one looking on. */
    method AppendForceBeside(newEntry: SortedChainable, sortVal: int, ghost l: SortedList?)
      requires Valid() && newEntry.currentList == null && newEntry !in elems && newEntry != headAndTail
      requires l != null ==> l.Valid() && Apart(l) && newEntry !in l.elems && newEntry != l.headAndTail
      modifies this, headAndTail, elems, newEntry
      ensures Valid() && elems == old(elems) + [newEntry]
      ensures newEntry.sortField == if sortVal < old(LastKey()) then old(LastKey()) else sortVal
      ensures forall e <- old(elems) :: e.sortField == old(e.sortField)
      ensures l != null ==> l.Valid() && l.elems == old(l.elems) && forall e <- l.elems :: e.sortField == old(e.sortField)
    {
      WithoutAbsent(elems, newEntry);
      ghost var touched := Touched(newEntry);
      assert l != null ==> l !in touched && l.headAndTail !in touched && forall e <- l.elems :: e !in touched;
      var _ := AppendForce(newEntry, sortVal);
      if l != null {
        Undisturbed(l);
      }
    }

    /** The position `insert` looks for: behind every key up to `sortVal`, before every larger one. */
    ghost predicate Between(s: seq<SortedChainable>, k: nat, key: int)
      reads s
    {
      && k <= |s|
      && (forall j :: 0 <= j < k ==> s[j].sortField <= key)
      && (forall j :: k <= j < |s| ==> s[j].sortField > key)
    }

    /** The loop of `insert`: the first entry with a larger key, if any. */
    method FindLarger(sortVal: int) returns (entry: SortedChainable?, ghost k: nat)
      requires Valid()
      ensures Between(elems, k, sortVal)
      ensures entry == if k == |elems| then null else elems[k]
    {
      var iter := GetFirst();
      k := 0;
      var end := EndOfList(iter);
      while !end
        invariant k <= |elems|
        invariant end <==> k == |elems|
        invariant !end ==> iter == elems[k]
        invariant forall j :: 0 <= j < k ==> elems[j].sortField <= sortVal
        decreases |elems| - k
      {
        if iter.sortField > sortVal {
          return iter, k;
        }
        assert Chain()[k + 1] == iter && iter.next == Chain()[k + 2];
        iter := iter.next;
        k := k + 1;
        end := EndOfList(iter);
      }
      return null, k;
    }

    /** `insert` of an entry that is in no list. */
    method PlaceSorted(newEntry: SortedChainable, sortVal: int, ghost l: SortedList?) returns (ghost k: nat)
      requires newEntry.sortField == sortVal
      requires Valid() && newEntry.currentList == null && newEntry !in elems && newEntry != headAndTail
      requires l != null ==> l.Valid() && Apart(l) && newEntry !in l.elems && newEntry != l.headAndTail
      modifies this, headAndTail, elems, newEntry
      ensures Valid() && k <= |old(elems)| && elems == InsertAt(old(elems), k, newEntry)
      ensures newEntry.sortField == if old(elems) == [] && sortVal < 0 then 0 else sortVal
      ensures Between(old(elems), k, newEntry.sortField)
      ensures forall e <- old(elems) :: e.sortField == old(e.sortField)
      ensures l != null ==> l.Valid() && l.elems == old(l.elems) && forall e <- l.elems :: e.sortField == old(e.sortField)
    {
      var iter;
      iter, k := FindLarger(sortVal);
      if iter != null {
        InsertBeforeBeside(iter, newEntry, k, l);
      } else {
        AppendForceBeside(newEntry, sortVal, l);
      }
    }

    /** `insert` of an entry that may be in any list. */
    method MoveSorted(newEntry: SortedChainable, sortVal: int) returns (ghost k: nat)
      requires Valid() && MayTake(newEntry) && newEntry != headAndTail
      modifies Touched(newEntry)
      ensures Valid()
      ensures var rest := Without<SortedChainable>(old(elems), newEntry);
              && k <= |rest| && elems == InsertAt(rest, k, newEntry)
              && newEntry.sortField == (if rest == [] && sortVal < 0 then 0 else sortVal)
              && Between(rest, k, newEntry.sortField)
      ensures forall e <- old(elems) :: e != newEntry ==> e.sortField == old(e.sortField)
      ensures old(newEntry.currentList) != null && old(newEntry.currentList) != this ==>
                TakenFrom(old(newEntry.currentList), old(newEntry.currentList.elems), newEntry)
                && forall e <- old(newEntry.currentList.elems) :: e != newEntry ==> e.sortField == old(e.sortField)
    {
      ghost var l := newEntry.currentList;
      TakeOut(newEntry);
      Detached(newEntry, sortVal, if l == this then null else l);
      k := PlaceSorted(newEntry, sortVal, if l == this then null else l);
    }

    /** Sorted insertion, first come first served among equal keys.  The key is the given one, but
        for a negative key in an otherwise empty list, which the sentinel's key 0 replaces. */
    method Insert(newEntry: SortedChainable?, sortVal: int) returns (ok: bool, ghost k: nat)
      requires Valid() && (newEntry != null ==> MayTake(newEntry))
      modifies if newEntry == null then {} else Touched(newEntry)
      ensures Valid()
      ensures ok == (newEntry != null && newEntry != headAndTail)
      ensures !ok && newEntry != null ==> unchanged(old(Touched(newEntry)))
      ensures ok ==>
                var rest := Without<SortedChainable>(old(elems), newEntry);
                && k <= |rest| && elems == InsertAt(rest, k, newEntry)
                && newEntry.sortField == (if rest == [] && sortVal < 0 then 0 else sortVal)
                && Between(rest, k, newEntry.sortField)
      ensures forall e <- old(elems) :: e != newEntry ==> e.sortField == old(e.sortField)
      ensures ok && old(newEntry.currentList) != null && old(newEntry.currentList) != this ==>
                TakenFrom(old(newEntry.currentList), old(newEntry.currentList.elems), newEntry)
                && forall e <- old(newEntry.currentList.elems) :: e != newEntry ==> e.sortField == old(e.sortField)
    {
      k := 0;
      if newEntry == null || newEntry == headAndTail {
        return false, 0;
      }
      k := MoveSorted(newEntry, sortVal);
      return true, k;
    }
  }

  /** A list none of whose parts has changed. */
  twostate lemma Undisturbed(m: SortedList)
    requires old(m.Valid())
    requires unchanged(m) && unchanged(m.headAndTail) && forall e <- m.elems :: unchanged(e)
    ensures m.Valid() && m.elems == old(m.elems)
  {
    var c := m.Chain();
    forall i | 0 <= i < |c| ensures unchanged(c[i]) {
      assert c[i] == m.headAndTail || (c[i] == m.elems[i - 1] && c[i] in m.elems);
    }
    assert c == old(m.Chain());
    forall i, j | 0 <= i < j < |m.elems| ensures m.elems[i].sortField <= m.elems[j].sortField {
      assert m.elems[i] in m.elems && m.elems[j] in m.elems;
      assert old(m.elems[i].sortField <= m.elems[j].sortField);
    }
  }
}
