/** Several sorted lists over one stock of entries: what every operation keeps of all of them. */
module SortedListWorld {
  import opened Common
  import opened SortedLists

  ghost function Sentinels(lists: set<SortedList>): set<SortedChainable> {
    set l <- lists :: l.headAndTail
  }

  /** Lists are well-formed and have sentinels of their own, and an entry is in exactly the list
      its `currentList` names, or in none. */
  ghost predicate World(lists: set<SortedList>, entries: set<SortedChainable>)
    reads lists, Sentinels(lists), entries
  {
    && (forall l <- lists :: l.headAndTail !in entries && (forall e <- l.elems :: e in entries) && l.Valid())
    && (forall l, m :: l in lists && m in lists && l != m ==> l.headAndTail != m.headAndTail)
    && (forall e <- entries :: e.currentList != null ==> e.currentList in lists && e in e.currentList.elems)
  }

  /** The entries that are in some list. */
  ghost function Listed(entries: set<SortedChainable>): set<SortedChainable>
    reads entries
  {
    set e <- entries | e.currentList != null
  }

  /** In the world an entry is an element of a list exactly when it names it. */
  lemma InExactlyOneList(lists: set<SortedList>, entries: set<SortedChainable>, e: SortedChainable)
    requires World(lists, entries) && e in entries
    ensures forall l <- lists :: e in l.elems <==> e.currentList == l
    ensures e.currentList == null <==> forall l <- lists :: e !in l.elems
  {
  }

  lemma Separate(lists: set<SortedList>, entries: set<SortedChainable>, l: SortedList)
    requires World(lists, entries) && l in lists
    ensures forall m <- lists :: m != l ==> l.Apart(m)
  {
  }

  lemma MayTakeAny(lists: set<SortedList>, entries: set<SortedChainable>, l: SortedList, e: SortedChainable)
    requires World(lists, entries) && l in lists && e in entries
    ensures l.MayTake(e) && e != l.headAndTail
  {
    Separate(lists, entries, l);
  }

  method Remove(l: SortedList, entry: SortedChainable, ghost lists: set<SortedList>, ghost entries: set<SortedChainable>)
    returns (ok: bool)
    requires World(lists, entries) && l in lists && entry in entries
    modifies l, l.headAndTail, l.elems
    ensures World(lists, entries)
    ensures ok == (old(entry.currentList) == l)
    ensures l.elems == if ok then Without(old(l.elems), entry) else old(l.elems)
    ensures Listed(entries) == if ok then old(Listed(entries)) - {entry} else old(Listed(entries))
    ensures forall e <- entries :: e.sortField == old(e.sortField)
  {
    Separate(lists, entries, l);
    WithoutKeepsRest(l.elems, entry);
    ok := l.Remove(entry);
    forall m | m in lists && m != l ensures m.Valid() && m.elems == old(m.elems) {
      Undisturbed(m);
    }
  }

  datatype How = Insert | Append | AppendForce

  /** Where an entry goes and with which key: `rest` is the list without it, `last` its last key. */
  ghost predicate Placed(how: How, l: SortedList, rest: seq<SortedChainable>, last: int, sortVal: int, entry: SortedChainable, k: nat)
    reads entry, rest
  {
    match how
    case Insert =>
      l.Between(rest, k, entry.sortField) && entry.sortField == if rest == [] && sortVal < 0 then 0 else sortVal
    case Append => k == |rest| && last <= sortVal == entry.sortField
    case AppendForce => k == |rest| && entry.sortField == if sortVal < last then last else sortVal
  }

  method Dispatch(how: How, l: SortedList, entry: SortedChainable, sortVal: int) returns (ok: bool, ghost k: nat)
    requires l.Valid() && l.MayTake(entry) && entry != l.headAndTail
    modifies l.Touched(entry)
    ensures l.Valid()
    ensures !ok ==> how.Append? && sortVal < old(l.LastKey()) && unchanged(old(l.Touched(entry)))
    ensures ok ==> k <= |Without(old(l.elems), entry)| && l.elems == InsertAt(Without(old(l.elems), entry), k, entry)
    ensures ok ==> Placed(how, l, Without(old(l.elems), entry), old(l.LastKey()), sortVal, entry, k)
    ensures ok && old(entry.currentList) != null && old(entry.currentList) != l ==>
              l.TakenFrom(old(entry.currentList), old(entry.currentList.elems), entry)
    ensures forall e <- old(l.elems) :: e != entry ==> e.sortField == old(e.sortField)
    ensures old(entry.currentList) != null ==>
              forall e <- old(entry.currentList.elems) :: e != entry ==> e.sortField == old(e.sortField)
  {
    k := |Without(l.elems, entry)|;
    match how {
      case Insert => ok, k := l.Insert(entry, sortVal);
      case Append => ok := l.Append(entry, sortVal);
      case AppendForce => ok := l.AppendForce(entry, sortVal);
    }
  }

  /** Entries other than the moved one still name the list they are in. */
  lemma StillNamed(l: SortedList, before: seq<SortedChainable>, entry: SortedChainable, e: SortedChainable)
    requires l.Valid() && NoDuplicates(before) && e in before && e != entry
    requires forall x <- Without(before, entry) :: x in l.elems
    ensures e in l.elems && e.currentList == l
  {
    WithoutKeepsRest(before, entry);
  }

  /** An entry is missing from every list it does not name. */
  lemma MissingElsewhere(lists: set<SortedList>, entries: set<SortedChainable>, entry: SortedChainable)
    requires World(lists, entries) && entry in entries
    ensures forall m <- lists :: m != entry.currentList ==> Without(m.elems, entry) == m.elems
  {
    forall m | m in lists && m != entry.currentList ensures Without(m.elems, entry) == m.elems {
      WithoutAbsent(m.elems, entry);
    }
  }

  /** Lists before and after an entry has been put into `l`. */
  ghost predicate Moved(lists: set<SortedList>, l: SortedList, entry: SortedChainable, k: nat,
                        before: map<SortedList, seq<SortedChainable>>)
    reads lists
  {
    && lists <= before.Keys && l in lists
    && k <= |Without(before[l], entry)| && l.elems == InsertAt(Without(before[l], entry), k, entry)
    && forall m <- lists :: m != l ==> m.elems == Without(before[m], entry)
  }

  lemma WorldAfterMove(lists: set<SortedList>, entries: set<SortedChainable>, l: SortedList, entry: SortedChainable, k: nat,
                       before: map<SortedList, seq<SortedChainable>>)
    requires Moved(lists, l, entry, k, before) && entry in entries
    requires forall m <- lists :: m.Valid() && m.headAndTail !in entries
    requires forall m, n :: m in lists && n in lists && m != n ==> m.headAndTail != n.headAndTail
    requires forall m <- lists :: NoDuplicates(before[m]) && forall e <- before[m] :: e in entries
    requires forall e <- entries :: e != entry && e.currentList != null ==> e.currentList in lists && e in before[e.currentList]
    ensures World(lists, entries) && entry.currentList == l
  {
    forall m | m in lists ensures forall e <- Without(before[m], entry) :: e in before[m] {
      WithoutKeepsRest(before[m], entry);
    }
    InsertAtHas(Without(before[l], entry), k, entry);
    assert entry in l.elems;
    forall e | e in entries && e.currentList != null ensures e.currentList in lists && e in e.currentList.elems {
      if e != entry {
        WithoutKeepsRest(before[e.currentList], entry);
      }
    }
  }

  lemma InsertAtHas<T>(s: seq<T>, k: nat, x: T)
    requires k <= |s|
    ensures x in InsertAt(s, k, x)
    ensures forall y <- s :: y in InsertAt(s, k, x)
    ensures forall y <- InsertAt(s, k, x) :: y == x || y in s
  {
    assert InsertAt(s, k, x)[k] == x;
    forall y | y in s ensures y in InsertAt(s, k, x) {
      var i :| 0 <= i < |s| && s[i] == y;
      assert InsertAt(s, k, x)[if i < k then i else i + 1] == y;
    }
  }

  /** The lists the entry neither leaves nor enters do not change. */
  method DispatchAmong(how: How, l: SortedList, entry: SortedChainable, sortVal: int,
                       ghost lists: set<SortedList>, ghost entries: set<SortedChainable>)
    returns (ok: bool, ghost k: nat)
    requires World(lists, entries) && l in lists && entry in entries
    requires l.MayTake(entry) && entry != l.headAndTail && forall m <- lists :: m != l ==> l.Apart(m)
    modifies l.Touched(entry)
    ensures !ok ==> how.Append? && sortVal < old(l.LastKey()) && unchanged(old(l.Touched(entry)))
    ensures forall m <- lists :: m.Valid()
    ensures forall m <- lists :: !ok || (m != l && m != old(entry.currentList)) ==> m.elems == old(m.elems)
    ensures ok ==> k <= |Without(old(l.elems), entry)| && l.elems == InsertAt(Without(old(l.elems), entry), k, entry)
    ensures ok ==> Placed(how, l, Without(old(l.elems), entry), old(l.LastKey()), sortVal, entry, k)
    ensures ok && old(entry.currentList) != null && old(entry.currentList) != l ==>
              old(entry.currentList).elems == Without(old(entry.currentList.elems), entry)
    ensures forall e <- entries :: e != entry ==> e.currentList == old(e.currentList) && e.sortField == old(e.sortField)
  {
    ghost var o := entry.currentList;
    ghost var touched := l.Touched(entry);
    forall m | m in lists && m != l && m != o
      ensures m !in touched && m.headAndTail !in touched && forall e <- m.elems :: e !in touched
    {
      assert o != null ==> o in lists;
    }
    forall e | e in entries && e in touched && e != entry ensures e in l.elems || (o != null && e in o.elems) {
    }
    ghost var mine := l.elems;
    ghost var others := if o == null then [] else o.elems;
    ok, k := Dispatch(how, l, entry, sortVal);
    forall e | e in entries && e != entry ensures e.currentList == old(e.currentList) && e.sortField == old(e.sortField) {
      if ok && e in mine {
        InsertAtHas(Without(mine, entry), k, entry);
        StillNamed(l, mine, entry, e);
      } else if ok && e in others {
        StillNamed(o, others, entry, e);
      }
    }
    forall m | m in lists && m != l && m != o ensures m.Valid() && m.elems == old(m.elems) {
      Undisturbed(m);
    }
  }

  /** Any of the three ways of putting an entry into a list: wherever it was before, it is in that
      list afterwards and nowhere else; all other entries stay where they are, in their order and
      with their keys. */
  method Place(how: How, l: SortedList, entry: SortedChainable, sortVal: int,
               ghost lists: set<SortedList>, ghost entries: set<SortedChainable>)
    returns (ok: bool, ghost k: nat)
    requires World(lists, entries) && l in lists && entry in entries
    modifies l.Touched(entry)
    ensures World(lists, entries)
    ensures !ok ==> how.Append? && sortVal < old(l.LastKey()) && forall m <- lists :: m.elems == old(m.elems)
    ensures ok ==> k <= |Without(old(l.elems), entry)| && l.elems == InsertAt(Without(old(l.elems), entry), k, entry)
    ensures ok ==> Placed(how, l, Without(old(l.elems), entry), old(l.LastKey()), sortVal, entry, k)
    ensures ok ==> forall m <- lists :: m != l ==> m.elems == Without(old(m.elems), entry)
    ensures forall e <- entries :: e.currentList == if ok && e == entry then l else old(e.currentList)
    ensures forall e <- entries :: e != entry ==> e.sortField == old(e.sortField)
  {
    MayTakeAny(lists, entries, l, entry);
    Separate(lists, entries, l);
    MissingElsewhere(lists, entries, entry);
    ghost var before := map m | m in lists :: m.elems;
    ok, k := DispatchAmong(how, l, entry, sortVal, lists, entries);
    if ok {
      WorldAfterMove(lists, entries, l, entry, k, before);
    }
  }

  // ---------------------------------------------------------------- totals

  ghost function Total(ls: seq<SortedList>): int
    reads ls
  {
    if ls == [] then 0 else Total(ls[..|ls| - 1]) + ls[|ls| - 1].numberOfElements
  }

  ghost function ListedIn(ls: seq<SortedList>, entries: set<SortedChainable>): set<SortedChainable>
    reads entries
  {
    set e <- entries | e.currentList != null && e.currentList in ls
  }

  lemma OneMoreList(front: seq<SortedList>, l: SortedList, lists: set<SortedList>, entries: set<SortedChainable>)
    requires World(lists, entries) && l in lists && l !in front
    ensures ListedIn(front + [l], entries) == ListedIn(front, entries) + ElementsOf(l.elems)
    ensures ListedIn(front, entries) !! ElementsOf(l.elems)
  {
    forall e | e in entries ensures e in l.elems <==> e.currentList == l {
      InExactlyOneList(lists, entries, e);
    }
  }

  /** The lists' counters add up to the number of entries that are in one of them: moving an entry
      from list to list conserves the total. */
  lemma {:induction false} TotalCountsEntries(ls: seq<SortedList>, lists: set<SortedList>, entries: set<SortedChainable>)
    requires World(lists, entries) && NoDuplicates(ls) && forall l <- ls :: l in lists
    ensures Total(ls) == |ListedIn(ls, entries)|
    decreases |ls|
  {
    if ls == [] {
      assert ListedIn(ls, entries) == {};
    } else {
      var front, l := ls[..|ls| - 1], ls[|ls| - 1];
      assert ls == front + [l];
      TotalCountsEntries(front, lists, entries);
      OneMoreList(front, l, lists, entries);
      DistinctCount(l.elems);
      assert l.Valid();
    }
  }
}
