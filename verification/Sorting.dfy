/** The stable sort behind every ordered listing: edges by score, entries by sequence, reasons by type. */
module Sorting {

  /** Of two items, either may come first or the order says which; and the order composes. */
  ghost predicate Orders<T(!new)>(leq: (T, T) -> bool) {
    (forall x, y :: leq(x, y) || leq(y, x)) &&
    (forall x, y, z :: leq(x, y) && leq(y, z) ==> leq(x, z))
  }

  predicate SortedBy<T>(items: seq<T>, leq: (T, T) -> bool) {
    forall i, j :: 0 <= i < j < |items| ==> leq(items[i], items[j])
  }

  function Insert<T>(x: T, sorted: seq<T>, leq: (T, T) -> bool): seq<T> {
    if sorted == [] then [x]
    else if leq(sorted[|sorted| - 1], x) then sorted + [x]
    else Insert(x, sorted[..|sorted| - 1], leq) + [sorted[|sorted| - 1]]
  }

  function StableSort<T>(items: seq<T>, leq: (T, T) -> bool): seq<T> {
    if items == [] then [] else Insert(items[|items| - 1], StableSort(items[..|items| - 1], leq), leq)
  }

  function Where<T>(items: seq<T>, p: T -> bool): seq<T> {
    if items == [] then [] else
      Where(items[..|items| - 1], p) + if p(items[|items| - 1]) then [items[|items| - 1]] else []
  }

  lemma {:induction false} InsertKeepsAll<T>(x: T, sorted: seq<T>, leq: (T, T) -> bool)
    ensures multiset(Insert(x, sorted, leq)) == multiset(sorted) + multiset{x}
    decreases |sorted|
  {
    if sorted != [] && !leq(sorted[|sorted| - 1], x) {
      var front, last := sorted[..|sorted| - 1], sorted[|sorted| - 1];
      InsertKeepsAll(x, front, leq);
      assert sorted == front + [last];
    }
  }

  lemma OneAtTheEnd<T>(front: seq<T>, last: T, leq: (T, T) -> bool)
    requires SortedBy(front, leq) && forall x :: x in front ==> leq(x, last)
    ensures SortedBy(front + [last], leq)
  {
    forall i, j | 0 <= i < j < |front + [last]|
      ensures leq((front + [last])[i], (front + [last])[j])
    {
      if j == |front| {
        assert front[i] in front;
      }
    }
  }

  lemma {:induction false} InsertSorts<T(!new)>(x: T, sorted: seq<T>, leq: (T, T) -> bool)
    requires Orders(leq) && SortedBy(sorted, leq)
    ensures SortedBy(Insert(x, sorted, leq), leq)
    decreases |sorted|
  {
    if sorted != [] {
      var front, last := sorted[..|sorted| - 1], sorted[|sorted| - 1];
      assert forall y :: y in front ==> leq(y, last);
      if leq(last, x) {
        assert forall y :: y in sorted ==> y in front || y == last;
        OneAtTheEnd(sorted, x, leq);
      } else {
        InsertSorts(x, front, leq);
        InsertKeepsAll(x, front, leq);
        forall y | y in Insert(x, front, leq)
          ensures leq(y, last)
        {
          assert y in multiset(Insert(x, front, leq));
        }
        OneAtTheEnd(Insert(x, front, leq), last, leq);
      }
    }
  }

  /** Nothing is lost or added. */
  lemma {:induction false} SortKeepsAll<T>(items: seq<T>, leq: (T, T) -> bool)
    ensures multiset(StableSort(items, leq)) == multiset(items)
    decreases |items|
  {
    if items != [] {
      var front, last := items[..|items| - 1], items[|items| - 1];
      SortKeepsAll(front, leq);
      InsertKeepsAll(last, StableSort(front, leq), leq);
      assert items == front + [last];
    }
  }

  lemma {:induction false} SortSorts<T(!new)>(items: seq<T>, leq: (T, T) -> bool)
    requires Orders(leq)
    ensures SortedBy(StableSort(items, leq), leq)
    decreases |items|
  {
    if items != [] {
      var front, last := items[..|items| - 1], items[|items| - 1];
      SortSorts(front, leq);
      InsertSorts(last, StableSort(front, leq), leq);
    }
  }

  /** `p` picks items that tie. */
  ghost predicate Ties<T(!new)>(p: T -> bool, leq: (T, T) -> bool) {
    forall x, y :: p(x) && p(y) ==> leq(x, y)
  }

  lemma WhereOneMore<T>(items: seq<T>, x: T, p: T -> bool)
    ensures Where(items + [x], p) == Where(items, p) + if p(x) then [x] else []
  {
    assert (items + [x])[..|items|] == items;
  }

  lemma SwapAtMostOne<T>(s: seq<T>, x: seq<T>, y: seq<T>)
    requires x == [] || y == []
    ensures s + x + y == s + y + x
  {
  }

  lemma {:induction false} InsertIsStable<T(!new)>(x: T, sorted: seq<T>, leq: (T, T) -> bool, p: T -> bool)
    requires Ties(p, leq)
    ensures Where(Insert(x, sorted, leq), p) == Where(sorted, p) + if p(x) then [x] else []
    decreases |sorted|
  {
    if sorted == [] || leq(sorted[|sorted| - 1], x) {
      WhereOneMore(sorted, x, p);
      assert sorted == [] ==> sorted + [x] == [x];
    } else {
      var front, last := sorted[..|sorted| - 1], sorted[|sorted| - 1];
      InsertIsStable(x, front, leq, p);
      WhereOneMore(Insert(x, front, leq), last, p);
      WhereOneMore(front, last, p);
      assert sorted == front + [last] && !(p(x) && p(last));
      SwapAtMostOne(Where(front, p), if p(x) then [x] else [], if p(last) then [last] else []);
    }
  }

  /** Items that tie keep their order. */
  lemma {:induction false} SortIsStable<T(!new)>(items: seq<T>, leq: (T, T) -> bool, p: T -> bool)
    requires Ties(p, leq)
    ensures Where(StableSort(items, leq), p) == Where(items, p)
    decreases |items|
  {
    if items != [] {
      var front, last := items[..|items| - 1], items[|items| - 1];
      SortIsStable(front, leq, p);
      InsertIsStable(last, StableSort(front, leq), leq, p);
      WhereOneMore(front, last, p);
      assert items == front + [last];
    }
  }
}
