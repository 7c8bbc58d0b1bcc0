/** What several components need and none of them owns. */
module Common {

  datatype Option<T> = None | Some(value: T)

  function Min(a: int, b: int): int {
    if a < b then a else b
  }

  function Max(a: int, b: int): int {
    if a > b then a else b
  }

  lemma MultiplyMonotone(a: int, b: int, c: int)
    requires a <= b && 0 <= c
    ensures a * c <= b * c
  {
  }

  /** A quotient and a remainder of `x` are the ones. */
  lemma RemainderIs(x: int, w: int, q: int, r: int)
    requires 0 <= r < w && x == q * w + r
    ensures x % w == r
  {
    var p := x / w;
    assert x == p * w + x % w;
    if p < q {
      MultiplyMonotone(p + 1, q, w);
      assert false;
    } else if q < p {
      MultiplyMonotone(q + 1, p, w);
      assert false;
    }
  }

  ghost predicate NoDuplicates<T>(s: seq<T>) {
    forall i, j :: 0 <= i < j < |s| ==> s[i] != s[j]
  }

  ghost function ElementsOf<T>(s: seq<T>): set<T> {
    set x | x in s
  }

  lemma DistinctCount<T>(s: seq<T>)
    requires NoDuplicates(s)
    ensures |ElementsOf(s)| == |s|
  {
    if s != [] {
      var front, last := s[..|s| - 1], s[|s| - 1];
      DistinctCount(front);
      assert ElementsOf(s) == ElementsOf(front) + {last};
    }
  }

  lemma SubsetSize<T>(a: set<T>, b: set<T>)
    requires a <= b
    ensures |a| <= |b|
  {
    assert b == a + (b - a);
  }

  lemma SubsetOfSameSize<T>(a: set<T>, b: set<T>)
    requires a <= b && |a| == |b|
    ensures a == b
  {
    var rest := b - a;
    assert b == a + rest;
    assert |b| == |a| + |rest|;
  }

  /** One step of an account: `all` went in before, `d` came out and `kept` stayed; later `later` goes in,
      `delivered` comes out and `rest` stays. What is missing once is missing in the end. */
  lemma AccountStep<T>(all: seq<T>, d: seq<T>, kept: seq<T>, later: seq<T>, delivered: seq<T>, rest: seq<T>)
    ensures |d + kept| < |all| && |delivered + rest| <= |kept + later| ==> |d + delivered + rest| < |all + later|
    ensures d + kept == all && |delivered + rest| < |kept + later| ==> |d + delivered + rest| < |all + later|
    ensures d + kept == all && delivered + rest == kept + later ==> d + delivered + rest == all + later
  {
    assert d + delivered + rest == d + (delivered + rest);
    assert d + kept + later == d + (kept + later);
  }
}
