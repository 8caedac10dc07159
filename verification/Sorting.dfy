/** Stable insertion sort by any comparison that says what comes strictly first,
    and lists whose elements differ in a key. */
module Sorting {
  /** `x` goes before the trailing elements it must precede. */
  function Insert<T>(sorted: seq<T>, x: T, before: (T, T) -> bool): seq<T> {
    if sorted == [] then [x]
    else
      var k := |sorted| - 1;
      if before(x, sorted[k]) then Insert(sorted[..k], x, before) + [sorted[k]] else sorted + [x]
  }

  function Sorted<T>(items: seq<T>, before: (T, T) -> bool): seq<T> {
    if items == [] then []
    else Insert(Sorted(items[..|items| - 1], before), items[|items| - 1], before)
  }

  /** No later element must precede an earlier one. */
  ghost predicate InOrder<T>(s: seq<T>, before: (T, T) -> bool) {
    forall i, k :: 0 <= i < k < |s| ==> !before(s[k], s[i])
  }

  /** A strict weak order. */
  ghost predicate Orders<T(!new)>(before: (T, T) -> bool) {
    && (forall x: T, y: T :: before(x, y) ==> !before(y, x))
    && (forall x: T, y: T, z: T :: !before(y, x) && !before(z, y) ==> !before(z, x))
  }

  predicate DistinctBy<T, K(==)>(s: seq<T>, key: T -> K) {
    forall i, k :: 0 <= i < k < |s| ==> key(s[i]) != key(s[k])
  }

  lemma {:induction false} InsertCounts<T>(sorted: seq<T>, x: T, before: (T, T) -> bool)
    ensures multiset(Insert(sorted, x, before)) == multiset(sorted) + multiset{x}
  {
    if sorted == [] {
    } else {
      var k := |sorted| - 1;
      assert sorted == sorted[..k] + [sorted[k]];
      InsertCounts(sorted[..k], x, before);
    }
  }

  /** Sorting lists each element as often as it was there. */
  lemma {:induction false} SortedCounts<T>(items: seq<T>, before: (T, T) -> bool)
    ensures multiset(Sorted(items, before)) == multiset(items)
  {
    if items == [] {
    } else {
      var k := |items| - 1;
      assert items == items[..k] + [items[k]];
      SortedCounts(items[..k], before);
      InsertCounts(Sorted(items[..k], before), items[k], before);
    }
  }

  lemma InsertIs<T>(sorted: seq<T>, x: T, before: (T, T) -> bool, y: T)
    ensures y in Insert(sorted, x, before) <==> y == x || y in sorted
  {
    InsertCounts(sorted, x, before);
    assert y in Insert(sorted, x, before) <==> y in multiset(Insert(sorted, x, before));
  }

  lemma SortedIs<T>(items: seq<T>, before: (T, T) -> bool, y: T)
    ensures y in Sorted(items, before) <==> y in items
  {
    SortedCounts(items, before);
    assert y in Sorted(items, before) <==> y in multiset(Sorted(items, before));
    assert y in items <==> y in multiset(items);
  }

  lemma {:induction false} InsertInOrder<T(!new)>(sorted: seq<T>, x: T, before: (T, T) -> bool)
    requires Orders(before) && InOrder(sorted, before)
    ensures InOrder(Insert(sorted, x, before), before)
  {
    if sorted == [] {
    } else {
      var k := |sorted| - 1;
      if before(x, sorted[k]) {
        InsertInOrder(sorted[..k], x, before);
        var r := Insert(sorted[..k], x, before);
        forall i | 0 <= i < |r| ensures !before(sorted[k], r[i]) {
          InsertIs(sorted[..k], x, before, r[i]);
        }
      }
    }
  }

  lemma {:induction false} SortedInOrder<T(!new)>(items: seq<T>, before: (T, T) -> bool)
    requires Orders(before)
    ensures InOrder(Sorted(items, before), before)
  {
    if items == [] {
    } else {
      var k := |items| - 1;
      SortedInOrder(items[..k], before);
      InsertInOrder(Sorted(items[..k], before), items[k], before);
    }
  }

  lemma {:induction false} InsertDistinct<T, K>(sorted: seq<T>, x: T, before: (T, T) -> bool, key: T -> K)
    requires DistinctBy(sorted, key) && forall y :: y in sorted ==> key(y) != key(x)
    ensures DistinctBy(Insert(sorted, x, before), key)
  {
    if sorted == [] {
    } else {
      var k := |sorted| - 1;
      if before(x, sorted[k]) {
        InsertDistinct(sorted[..k], x, before, key);
        var r := Insert(sorted[..k], x, before);
        forall i | 0 <= i < |r| ensures key(r[i]) != key(sorted[k]) {
          InsertIs(sorted[..k], x, before, r[i]);
        }
      }
    }
  }

  lemma {:induction false} SortedDistinct<T, K>(items: seq<T>, before: (T, T) -> bool, key: T -> K)
    requires DistinctBy(items, key)
    ensures DistinctBy(Sorted(items, before), key)
  {
    if items == [] {
    } else {
      var k := |items| - 1;
      SortedDistinct(items[..k], before, key);
      forall y | y in Sorted(items[..k], before) ensures key(y) != key(items[k]) {
        SortedIs(items[..k], before, y);
      }
      InsertDistinct(Sorted(items[..k], before), items[k], before, key);
    }
  }
}
