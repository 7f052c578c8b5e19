/** Record ids, record pairs and the two sorted enumerations every pass below relies on. */
module Records {

  /** A record id. Ids are only ever compared, so a totally ordered type is all that matters. */
  type RecordId = nat

  datatype RecordPair = RecordPair(a: RecordId, b: RecordId)

  /** A pair of two distinct records, the smaller id first. */
  type Pair = p: RecordPair | p.a < p.b witness RecordPair(0, 1)

  /** `RecordPair.ordered`. */
  function Ordered(left: RecordId, right: RecordId): (p: RecordPair)
    ensures (p.a == left && p.b == right) || (p.a == right && p.b == left)
    ensures left != right <==> p.a < p.b
  {
    if left <= right then RecordPair(left, right) else RecordPair(right, left)
  }

  predicate PairLess(p: Pair, q: Pair) {
    p.a < q.a || (p.a == q.a && p.b < q.b)
  }

  /** Both records of `p` are in `ids`. */
  predicate Inside(p: Pair, ids: set<RecordId>) {
    p.a in ids && p.b in ids
  }

  /** Some forbidden pair lies wholly inside `ids`: the one test behind both the NO_MATCH check and
      the severe-conflict check. */
  predicate Blocked(ids: set<RecordId>, forbidden: set<Pair>) {
    exists p :: p in forbidden && Inside(p, ids)
  }

  lemma BlockedIsMonotone(small: set<RecordId>, large: set<RecordId>, fewer: set<Pair>, more: set<Pair>)
    requires small <= large && fewer <= more
    ensures Blocked(small, fewer) ==> Blocked(large, more)
  {
    if p :| p in fewer && Inside(p, small) {
      assert p in more && Inside(p, large);
    }
  }

  /** Every record of every pair is a known record. */
  predicate Known(pairs: seq<Pair>, ids: set<RecordId>) {
    forall i :: 0 <= i < |pairs| ==> Inside(pairs[i], ids)
  }

  predicate AscendingIds(s: seq<RecordId>) {
    forall i, j :: 0 <= i < j < |s| ==> s[i] < s[j]
  }

  predicate AscendingPairs(s: seq<Pair>) {
    forall i, j :: 0 <= i < j < |s| ==> PairLess(s[i], s[j])
  }

  function EdgeSet(edges: seq<Pair>): set<Pair> {
    set e | e in edges
  }

  ghost predicate IsLeastId(x: RecordId, ids: set<RecordId>) {
    x in ids && forall y :: y in ids ==> x <= y
  }

  lemma {:induction false} LeastIdExists(ids: set<RecordId>) returns (x: RecordId)
    requires ids != {}
    ensures IsLeastId(x, ids)
    decreases |ids|
  {
    x :| x in ids;
    if ids != {x} {
      var y := LeastIdExists(ids - {x});
      assert forall z :: z in ids ==> z == x || z in ids - {x};
      if y < x {
        x := y;
      }
    }
  }

  lemma SomeIdIsLeast(ids: set<RecordId>)
    requires ids != {}
    ensures exists x :: IsLeastId(x, ids)
  {
    var x := LeastIdExists(ids);
    assert IsLeastId(x, ids);
  }

  /** `sorted(ids)` for a set of record ids. */
  function SortedIds(ids: set<RecordId>): (r: seq<RecordId>)
    ensures AscendingIds(r)
    ensures forall x :: x in r <==> x in ids
  {
    if ids == {} then [] else
      SomeIdIsLeast(ids);
      var x :| x in ids && forall y :: y in ids ==> x <= y;
      [x] + SortedIds(ids - {x})
  }

  ghost predicate IsLeastPair(p: Pair, pairs: set<Pair>) {
    p in pairs && forall q :: q in pairs && q != p ==> PairLess(p, q)
  }

  lemma {:induction false} LeastPairExists(pairs: set<Pair>) returns (p: Pair)
    requires pairs != {}
    ensures IsLeastPair(p, pairs)
    decreases |pairs|
  {
    p :| p in pairs;
    if pairs != {p} {
      var q := LeastPairExists(pairs - {p});
      assert forall r :: r in pairs ==> r == p || r in pairs - {p};
      if PairLess(q, p) {
        p := q;
      }
    }
  }

  /** `sorted(pairs)` by `(record_a_id, record_b_id)` for a set of pairs. */
  function SortedPairs(pairs: set<Pair>): (r: seq<Pair>)
    ensures AscendingPairs(r)
    ensures forall p :: p in r <==> p in pairs
  {
    if pairs == {} then [] else
      SomePairIsLeast(pairs);
      var p :| p in pairs && forall q :: q in pairs && q != p ==> PairLess(p, q);
      [p] + SortedPairs(pairs - {p})
  }

  lemma SomePairIsLeast(pairs: set<Pair>)
    requires pairs != {}
    ensures exists p :: IsLeastPair(p, pairs)
  {
    var p := LeastPairExists(pairs);
    assert IsLeastPair(p, pairs);
  }

  lemma SubsetCount<T>(small: set<T>, large: set<T>)
    requires small <= large
    ensures |small| <= |large|
  {
    assert large == small + (large - small);
  }
}
