/** Partitions of the known records, each class named by its least member, and the graph they come from. */
module Partitions {
  import opened Records

  /** Every record mapped to the least record of its class. */
  type Partition = map<RecordId, RecordId>

  predicate Names(p: Partition, x: RecordId, name: RecordId) {
    x in p && p[x] == name
  }

  /** Every class is named by its least member. */
  ghost predicate Canonical(p: Partition) {
    forall x, name {:trigger Names(p, x, name)} :: Names(p, x, name) ==> name <= x && Names(p, name, name)
  }

  function Discrete(ids: set<RecordId>): (p: Partition)
    ensures Canonical(p) && p.Keys == ids
  {
    map x | x in ids :: x
  }

  predicate Same(p: Partition, x: RecordId, y: RecordId) {
    x in p && y in p && p[x] == p[y]
  }

  function Component(p: Partition, x: RecordId): set<RecordId>
    requires x in p
  {
    set y | y in p && p[y] == p[x]
  }

  /** The records a union along `e` would bring together. */
  function Proposed(p: Partition, e: Pair): set<RecordId>
    requires Inside(e, p.Keys)
  {
    set y | y in p && (p[y] == p[e.a] || p[y] == p[e.b])
  }

  function Least(x: RecordId, y: RecordId): RecordId {
    if x < y then x else y
  }

  /** The partition after a union along `e`. */
  function Merge(p: Partition, e: Pair): (q: Partition)
    requires Inside(e, p.Keys)
    ensures q.Keys == p.Keys
  {
    map x | x in p :: if p[x] == p[e.a] || p[x] == p[e.b] then Least(p[e.a], p[e.b]) else p[x]
  }

  lemma MergeIsCanonical(p: Partition, e: Pair)
    requires Inside(e, p.Keys) && Canonical(p)
    ensures Canonical(Merge(p, e))
  {
    assert Names(p, e.a, p[e.a]) && Names(p, e.b, p[e.b]);
    forall x, name | Names(Merge(p, e), x, name)
      ensures name <= x && Names(Merge(p, e), name, name)
    {
      assert Names(p, x, p[x]);
    }
  }

  /** A union joins exactly the two classes of its ends. */
  lemma MergeJoins(p: Partition, e: Pair, x: RecordId, y: RecordId)
    requires Inside(e, p.Keys)
    ensures Same(Merge(p, e), x, y) <==> Same(p, x, y) || (x in Proposed(p, e) && y in Proposed(p, e))
  {
  }

  lemma MergeIsCoarser(p: Partition, e: Pair)
    requires Inside(e, p.Keys)
    ensures Coarser(p, Merge(p, e)) && Same(Merge(p, e), e.a, e.b)
  {
  }

  /** `q` joins everything `p` joins. */
  ghost predicate Coarser(p: Partition, q: Partition) {
    p.Keys == q.Keys && forall x, y :: Same(p, x, y) ==> Same(q, x, y)
  }

  /** No class of `p` holds both records of a forbidden pair. */
  ghost predicate Safe(p: Partition, forbidden: set<Pair>) {
    forall f :: f in forbidden ==> !Same(p, f.a, f.b)
  }

  lemma CanonicalIsUnique(p: Partition, q: Partition)
    requires Canonical(p) && Canonical(q) && p.Keys == q.Keys
    requires forall x, y :: Same(p, x, y) <==> Same(q, x, y)
    ensures p == q
  {
    forall x | x in p
      ensures p[x] == q[x]
    {
      assert Names(p, x, p[x]) && Names(q, x, q[x]);
      assert Same(p, x, p[x]) && Same(q, x, q[x]);
      assert Names(q, p[x], q[p[x]]) && Names(p, q[x], p[q[x]]);
    }
  }

  lemma NamedByLeastMember(p: Partition, x: RecordId)
    requires Canonical(p) && x in p
    ensures p[x] in Component(p, x)
    ensures forall y :: y in Component(p, x) ==> p[x] <= y
  {
    assert Names(p, x, p[x]);
    forall y | y in Component(p, x)
      ensures p[x] <= y
    {
      assert Names(p, y, p[y]);
    }
  }

  lemma SafeIsUnblocked(p: Partition, forbidden: set<Pair>, x: RecordId)
    requires x in p && Safe(p, forbidden)
    ensures !Blocked(Component(p, x), forbidden)
  {
    forall f | f in forbidden
      ensures !Inside(f, Component(p, x))
    {
      assert !Same(p, f.a, f.b);
    }
  }

  lemma MergeKeepsSafe(p: Partition, e: Pair, forbidden: set<Pair>)
    requires Inside(e, p.Keys) && Safe(p, forbidden) && !Blocked(Proposed(p, e), forbidden)
    ensures Safe(Merge(p, e), forbidden)
  {
    forall f | f in forbidden
      ensures !Same(Merge(p, e), f.a, f.b)
    {
      assert !Same(p, f.a, f.b);
      assert !Inside(f, Proposed(p, e));
      MergeJoins(p, e, f.a, f.b);
    }
  }

  lemma ProposedGrows(p: Partition, q: Partition, e: Pair)
    requires Inside(e, p.Keys) && Coarser(p, q)
    ensures Proposed(p, e) <= Proposed(q, e)
    ensures Component(p, e.a) <= Component(q, e.a)
  {
    forall y | y in Proposed(p, e)
      ensures y in Proposed(q, e)
    {
      assert Same(p, y, e.a) || Same(p, y, e.b);
    }
    forall y | y in Component(p, e.a)
      ensures y in Component(q, e.a)
    {
      assert Same(p, y, e.a);
    }
  }

  // ---- the graph -------------------------------------------------------------------------------

  predicate Adjacent(edges: set<Pair>, x: RecordId, y: RecordId) {
    exists e :: e in edges && ((e.a == x && e.b == y) || (e.a == y && e.b == x))
  }

  ghost predicate IsPath(edges: set<Pair>, path: seq<RecordId>) {
    |path| > 0 && forall i :: 0 <= i < |path| - 1 ==> Adjacent(edges, path[i], path[i + 1])
  }

  /** Some path of edges leads from `x` to `y`. */
  ghost predicate Connected(edges: set<Pair>, x: RecordId, y: RecordId) {
    exists path :: IsPath(edges, path) && path[0] == x && path[|path| - 1] == y
  }

  lemma ConnectedIsReflexive(edges: set<Pair>, x: RecordId)
    ensures Connected(edges, x, x)
  {
    assert IsPath(edges, [x]) && [x][0] == x;
  }

  lemma EdgeConnects(edges: set<Pair>, e: Pair)
    requires e in edges
    ensures Connected(edges, e.a, e.b)
  {
    var path := [e.a, e.b];
    assert Adjacent(edges, path[0], path[1]);
    assert IsPath(edges, path) && path[0] == e.a && path[|path| - 1] == e.b;
  }

  lemma ConnectedIsTransitive(edges: set<Pair>, x: RecordId, y: RecordId, z: RecordId)
    requires Connected(edges, x, y) && Connected(edges, y, z)
    ensures Connected(edges, x, z)
  {
    var s :| IsPath(edges, s) && s[0] == x && s[|s| - 1] == y;
    var t :| IsPath(edges, t) && t[0] == y && t[|t| - 1] == z;
    var path := s + t[1..];
    forall i | 0 <= i < |path| - 1
      ensures Adjacent(edges, path[i], path[i + 1])
    {
      if i >= |s| - 1 {
        assert path[i] == t[i - (|s| - 1)] && path[i + 1] == t[i + 1 - (|s| - 1)];
      }
    }
    assert IsPath(edges, path) && path[0] == x && path[|path| - 1] == z;
  }

  lemma {:induction false} ConnectedIsSymmetric(edges: set<Pair>, x: RecordId, y: RecordId)
    requires Connected(edges, x, y)
    ensures Connected(edges, y, x)
  {
    var s :| IsPath(edges, s) && s[0] == x && s[|s| - 1] == y;
    var path := seq(|s|, i requires 0 <= i < |s| => s[|s| - 1 - i]);
    forall i | 0 <= i < |path| - 1
      ensures Adjacent(edges, path[i], path[i + 1])
    {
      assert Adjacent(edges, s[|s| - 2 - i], s[|s| - 2 - i + 1]);
    }
    assert IsPath(edges, path) && path[0] == y && path[|path| - 1] == x;
  }

  lemma MoreEdgesConnectMore(fewer: set<Pair>, more: set<Pair>, x: RecordId, y: RecordId)
    requires fewer <= more && Connected(fewer, x, y)
    ensures Connected(more, x, y)
  {
    var s :| IsPath(fewer, s) && s[0] == x && s[|s| - 1] == y;
    forall i | 0 <= i < |s| - 1
      ensures Adjacent(more, s[i], s[i + 1])
    {
      var e :| e in fewer && ((e.a == s[i] && e.b == s[i + 1]) || (e.a == s[i + 1] && e.b == s[i]));
      assert e in more;
    }
    assert IsPath(more, s);
  }

  // ---- unions along edges build exactly the connected components -----------------------------------

  /** The partition after unions along all of `edges`, in order. */
  function MergeAll(p: Partition, edges: seq<Pair>): (q: Partition)
    requires Known(edges, p.Keys)
    ensures q.Keys == p.Keys
    ensures Canonical(p) ==> Canonical(q)
  {
    if edges == [] then p else
      var front := MergeAll(p, edges[..|edges| - 1]);
      assert Canonical(p) ==> Canonical(Merge(front, edges[|edges| - 1])) by {
        if Canonical(p) { MergeIsCanonical(front, edges[|edges| - 1]); }
      }
      Merge(front, edges[|edges| - 1])
  }

  /** Soundness: a class only holds records that some path of `edges` joins. */
  ghost predicate JoinsOnlyConnected(p: Partition, edges: set<Pair>) {
    forall x, y :: Same(p, x, y) ==> Connected(edges, x, y)
  }

  /** Completeness: every edge lies inside one class. */
  ghost predicate JoinsEveryEdge(p: Partition, edges: set<Pair>) {
    forall e :: e in edges ==> Same(p, e.a, e.b)
  }

  lemma MergeJoinsOnlyConnected(p: Partition, e: Pair, edges: set<Pair>)
    requires Inside(e, p.Keys) && JoinsOnlyConnected(p, edges) && e in edges
    ensures JoinsOnlyConnected(Merge(p, e), edges)
  {
    forall x, y | Same(Merge(p, e), x, y)
      ensures Connected(edges, x, y)
    {
      MergeJoins(p, e, x, y);
      if !Same(p, x, y) {
        ReachesEndOf(p, e, edges, x);
        ReachesEndOf(p, e, edges, y);
        ConnectedIsSymmetric(edges, y, e.a);
        ConnectedIsTransitive(edges, x, e.a, y);
      }
    }
  }

  lemma ReachesEndOf(p: Partition, e: Pair, edges: set<Pair>, x: RecordId)
    requires Inside(e, p.Keys) && JoinsOnlyConnected(p, edges) && e in edges && x in Proposed(p, e)
    ensures Connected(edges, x, e.a)
  {
    if !Same(p, x, e.a) {
      assert Same(p, x, e.b);
      EdgeConnects(edges, e);
      ConnectedIsSymmetric(edges, e.a, e.b);
      ConnectedIsTransitive(edges, x, e.b, e.a);
    }
  }

  /** A partition that joins every edge joins the two ends of every path. */
  lemma {:induction false} PathStaysInClass(p: Partition, edges: set<Pair>, path: seq<RecordId>)
    requires JoinsEveryEdge(p, edges) && IsPath(edges, path) && path[0] in p
    ensures Same(p, path[0], path[|path| - 1])
    decreases |path|
  {
    if |path| > 1 {
      assert Adjacent(edges, path[0], path[1]);
      var e :| e in edges && ((e.a == path[0] && e.b == path[1]) || (e.a == path[1] && e.b == path[0]));
      assert Same(p, e.a, e.b);
      var rest := path[1..];
      forall i | 0 <= i < |rest| - 1
        ensures Adjacent(edges, rest[i], rest[i + 1])
      {
        assert rest[i] == path[i + 1] && rest[i + 1] == path[i + 2];
      }
      PathStaysInClass(p, edges, rest);
    }
  }

  /** A partition that joins every edge and nothing unconnected has exactly the connected components as classes. */
  lemma ClassesAreComponents(p: Partition, edges: set<Pair>, x: RecordId, y: RecordId)
    requires JoinsOnlyConnected(p, edges) && JoinsEveryEdge(p, edges) && x in p
    ensures Same(p, x, y) <==> Connected(edges, x, y)
  {
    if Connected(edges, x, y) {
      var path :| IsPath(edges, path) && path[0] == x && path[|path| - 1] == y;
      PathStaysInClass(p, edges, path);
    }
  }

  lemma {:induction false} MergeAllJoinsOnlyConnected(ids: set<RecordId>, edges: seq<Pair>, all: set<Pair>)
    requires Known(edges, ids) && EdgeSet(edges) <= all
    ensures JoinsOnlyConnected(MergeAll(Discrete(ids), edges), all)
    decreases |edges|
  {
    if edges == [] {
      forall x, y | Same(Discrete(ids), x, y)
        ensures Connected(all, x, y)
      {
        ConnectedIsReflexive(all, x);
      }
    } else {
      var front, e := edges[..|edges| - 1], edges[|edges| - 1];
      assert e in EdgeSet(edges) && EdgeSet(front) <= EdgeSet(edges);
      MergeAllJoinsOnlyConnected(ids, front, all);
      MergeJoinsOnlyConnected(MergeAll(Discrete(ids), front), e, all);
    }
  }

  lemma {:induction false} MergeAllJoinsEveryEdge(p: Partition, edges: seq<Pair>)
    requires Known(edges, p.Keys)
    ensures Coarser(p, MergeAll(p, edges))
    ensures JoinsEveryEdge(MergeAll(p, edges), EdgeSet(edges))
    decreases |edges|
  {
    if edges != [] {
      var front, e := edges[..|edges| - 1], edges[|edges| - 1];
      var q := MergeAll(p, front);
      MergeAllJoinsEveryEdge(p, front);
      MergeIsCoarser(q, e);
      forall f | f in EdgeSet(edges)
        ensures Same(Merge(q, e), f.a, f.b)
      {
        assert f == e || (f in EdgeSet(front) && Same(q, f.a, f.b));
      }
    }
  }

  /** Classes are exactly the connected components of the unions made. */
  lemma MergeAllIsReachability(ids: set<RecordId>, edges: seq<Pair>, x: RecordId, y: RecordId)
    requires Known(edges, ids) && x in ids
    ensures Same(MergeAll(Discrete(ids), edges), x, y) <==> Connected(EdgeSet(edges), x, y)
  {
    MergeAllJoinsOnlyConnected(ids, edges, EdgeSet(edges));
    MergeAllJoinsEveryEdge(Discrete(ids), edges);
    ClassesAreComponents(MergeAll(Discrete(ids), edges), EdgeSet(edges), x, y);
  }

  /** The order and the repetition of the unions do not matter. */
  lemma MergeOrderIsIrrelevant(ids: set<RecordId>, edges: seq<Pair>, others: seq<Pair>)
    requires Known(edges, ids) && Known(others, ids) && EdgeSet(edges) == EdgeSet(others)
    ensures MergeAll(Discrete(ids), edges) == MergeAll(Discrete(ids), others)
  {
    var p, q := MergeAll(Discrete(ids), edges), MergeAll(Discrete(ids), others);
    forall x, y
      ensures Same(p, x, y) <==> Same(q, x, y)
    {
      if x in ids {
        MergeAllIsReachability(ids, edges, x, y);
        MergeAllIsReachability(ids, others, x, y);
      }
    }
    CanonicalIsUnique(p, q);
  }
}
