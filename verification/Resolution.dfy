/** The machine's side of entity resolution: pair decisions, the configuration, and clusters. */
module Resolution {
  import opened Records
  import opened Partitions

  datatype MatchDecisionType = AutoMatch | Review | NoMatch

  datatype MatchDecision = MatchDecision(pair: Pair, score: real, decision: MatchDecisionType)

  /** What the safety passes read of the configuration and the record contents: the guard switch, and the
      record pairs, smaller id first, that some conflict of a severe type separates. */
  datatype Config = Config(clusterConflictGuard: bool, severe: set<Pair>)

  datatype ClusterId = AutoCluster(index: nat) | HumanCluster(index: nat)

  datatype EntityCluster = EntityCluster(
    id: ClusterId, members: seq<RecordId>, autoMatchEdges: seq<Pair>, hasInternalConflict: bool)

  function AutoMatches(decisions: seq<MatchDecision>): seq<MatchDecision> {
    if decisions == [] then [] else
      var last := decisions[|decisions| - 1];
      AutoMatches(decisions[..|decisions| - 1]) + if last.decision.AutoMatch? then [last] else []
  }

  function PairsOf(decisions: seq<MatchDecision>): (r: seq<Pair>)
    ensures |r| == |decisions| && forall i :: 0 <= i < |r| ==> r[i] == decisions[i].pair
  {
    if decisions == [] then [] else
      PairsOf(decisions[..|decisions| - 1]) + [decisions[|decisions| - 1].pair]
  }

  /** The AUTO_MATCH edges in decision order. */
  function AutoEdges(decisions: seq<MatchDecision>): seq<Pair> {
    PairsOf(AutoMatches(decisions))
  }

  lemma {:induction false} AutoEdgesStep(decisions: seq<MatchDecision>, next: MatchDecision)
    ensures AutoEdges(decisions + [next])
            == AutoEdges(decisions) + if next.decision.AutoMatch? then [next.pair] else []
  {
    assert (decisions + [next])[..|decisions|] == decisions;
    if next.decision.AutoMatch? {
      assert (AutoMatches(decisions) + [next])[..|AutoMatches(decisions)|] == AutoMatches(decisions);
    } else {
      assert AutoMatches(decisions) + [] == AutoMatches(decisions);
      assert AutoEdges(decisions) + [] == AutoEdges(decisions);
    }
  }

  /** The record map holds both records of every decision. */
  predicate Covers(ids: set<RecordId>, decisions: seq<MatchDecision>) {
    forall i :: 0 <= i < |decisions| ==> Inside(decisions[i].pair, ids)
  }

  lemma {:induction false} CoveredEdgesAreKnown(ids: set<RecordId>, decisions: seq<MatchDecision>)
    requires Covers(ids, decisions)
    ensures Covers(ids, AutoMatches(decisions)) && Known(AutoEdges(decisions), ids)
    decreases |decisions|
  {
    if decisions != [] {
      CoveredEdgesAreKnown(ids, decisions[..|decisions| - 1]);
    }
  }

  /** The edges lying inside one component. */
  function Within(edges: seq<Pair>, ids: set<RecordId>): (r: seq<Pair>)
    ensures forall e :: e in r <==> e in edges && Inside(e, ids)
  {
    if edges == [] then [] else
      var e := edges[|edges| - 1];
      assert forall f :: f in edges <==> f in edges[..|edges| - 1] || f == e;
      Within(edges[..|edges| - 1], ids) + if Inside(e, ids) then [e] else []
  }

  /** Where in `edges` the kept ones come from: ascending places, and every edge inside keeps its place. */
  ghost predicate KeptAt(edges: seq<Pair>, ids: set<RecordId>, kept: seq<Pair>, places: seq<int>) {
    && |kept| == |places| && AscendingPlaces(places)
    && (forall i :: 0 <= i < |places| ==> 0 <= places[i] < |edges| && kept[i] == edges[places[i]])
    && (forall k :: 0 <= k < |edges| && Inside(edges[k], ids) ==> k in places)
  }

  predicate AscendingPlaces(places: seq<int>) {
    forall i, j :: 0 <= i < j < |places| ==> places[i] < places[j]
  }

  lemma KeepOneMore(front: seq<Pair>, e: Pair, ids: set<RecordId>, kept: seq<Pair>, places: seq<int>)
    requires KeptAt(front, ids, kept, places) && Inside(e, ids)
    ensures KeptAt(front + [e], ids, kept + [e], places + [|front|])
  {
    forall k | 0 <= k < |front + [e]| && Inside((front + [e])[k], ids)
      ensures k in places + [|front|]
    {
      assert k < |front| ==> Inside(front[k], ids);
    }
  }

  lemma DropOneMore(front: seq<Pair>, e: Pair, ids: set<RecordId>, kept: seq<Pair>, places: seq<int>)
    requires KeptAt(front, ids, kept, places) && !Inside(e, ids)
    ensures KeptAt(front + [e], ids, kept, places)
  {
  }

  /** The edges of a component keep their order, each as often as it was there. */
  lemma {:induction false} WithinKeepsOrder(edges: seq<Pair>, ids: set<RecordId>) returns (places: seq<int>)
    ensures KeptAt(edges, ids, Within(edges, ids), places)
    decreases |edges|
  {
    places := [];
    if edges != [] {
      var front, e := edges[..|edges| - 1], edges[|edges| - 1];
      places := WithinKeepsOrder(front, ids);
      assert edges == front + [e];
      if Inside(e, ids) {
        KeepOneMore(front, e, ids, Within(front, ids), places);
        places := places + [|front|];
      } else {
        DropOneMore(front, e, ids, Within(front, ids), places);
        assert Within(front, ids) + [] == Within(front, ids);
      }
    }
  }

  function IdSet(members: seq<RecordId>): set<RecordId> {
    set x | x in members
  }

  // ---- the components of a partition, in order of their least member ------------------------------------

  function ClassNames(p: Partition): set<RecordId> {
    set x | x in p && Names(p, x, x)
  }

  /** All components, each in ascending order, listed by least member. */
  function ComponentList(p: Partition): (r: seq<seq<RecordId>>)
    ensures |r| == |SortedIds(ClassNames(p))|
  {
    var names := SortedIds(ClassNames(p));
    assert forall i :: 0 <= i < |names| ==> names[i] in ClassNames(p);
    seq(|names|, i requires 0 <= i < |names| => SortedIds(Component(p, names[i])))
  }

  /** A class is listed exactly once, by its members in ascending order. */
  lemma ComponentIsListed(p: Partition, x: RecordId)
    requires Canonical(p) && x in p
    ensures exists i :: 0 <= i < |ComponentList(p)| && ComponentList(p)[i] == SortedIds(Component(p, x))
  {
    var names := SortedIds(ClassNames(p));
    assert Names(p, x, p[x]);
    assert p[x] in names;
    var i :| 0 <= i < |names| && names[i] == p[x];
    assert Component(p, p[x]) == Component(p, x);
    assert ComponentList(p)[i] == SortedIds(Component(p, x));
  }

  lemma ListedIsComponent(p: Partition, i: nat)
    requires Canonical(p) && i < |ComponentList(p)|
    ensures exists x :: x in p && ComponentList(p)[i] == SortedIds(Component(p, x))
  {
    var names := SortedIds(ClassNames(p));
    assert names[i] in names;
    assert names[i] in p && ComponentList(p)[i] == SortedIds(Component(p, names[i]));
  }

  /** `s` is the ascending listing of `ids`. */
  ghost predicate Lists(s: seq<RecordId>, ids: set<RecordId>) {
    AscendingIds(s) && forall x :: x in s <==> x in ids
  }

  lemma ListsAppend(s: seq<RecordId>, ids: set<RecordId>, x: RecordId)
    requires Lists(s, ids) && forall y :: y in ids ==> y < x
    ensures Lists(s + [x], ids + {x})
  {
    assert forall i :: 0 <= i < |s| ==> s[i] in s;
    assert forall y :: y in s + [x] <==> y in s || y == x;
  }

  lemma ListsIsSorted(s: seq<RecordId>, ids: set<RecordId>)
    requires Lists(s, ids)
    ensures s == SortedIds(ids)
  {
    AscendingIsUnique(s, SortedIds(ids));
  }

  lemma FirstIsListed(s: seq<RecordId>)
    ensures s == [] || s[0] in s
  {
  }

  lemma {:induction false} AscendingIsUnique(s: seq<RecordId>, t: seq<RecordId>)
    requires AscendingIds(s) && AscendingIds(t)
    requires forall x :: x in s <==> x in t
    ensures s == t
    decreases |s|
  {
    FirstIsListed(s);
    FirstIsListed(t);
    if s != [] {
      forall x
        ensures x in s[1..] <==> x in t[1..]
      {
        assert x in s[1..] <==> x in s && x != s[0];
        assert x in t[1..] <==> x in t && x != t[0];
      }
      AscendingIsUnique(s[1..], t[1..]);
    }
  }

  type Groups = map<RecordId, seq<RecordId>>

  /** The records of `seen`, grouped under their roots. */
  ghost predicate Grouped(roots: Partition, seen: set<RecordId>, order: seq<RecordId>, groups: Groups) {
    && Lists(order, ClassNames(roots) * seen)
    && groups.Keys == ClassNames(roots) * seen
    && forall r :: r in groups ==> Lists(groups[r], Component(roots, r) * seen)
  }

  /** One visit: the record joins its root's group, or opens it. */
  function AddToGroup(roots: Partition, order: seq<RecordId>, groups: Groups, member: RecordId): (r: (seq<RecordId>, Groups))
    requires member in roots
  {
    var root := roots[member];
    if root in groups
    then (order, groups[root := groups[root] + [member]])
    else (order + [root], groups[root := [member]])
  }

  /** Groups records under their roots, visiting them in ascending order. A root is the least member of
      its class, so it opens its own group and the groups open in ascending order. */
  method GroupByRoot(roots: Partition) returns (components: seq<seq<RecordId>>)
    requires Canonical(roots)
    ensures components == ComponentList(roots)
  {
    var members := SortedIds(roots.Keys);
    var order: seq<RecordId> := [];
    var groups: Groups := map[];
    var n := 0;
    while n < |members|
      invariant n <= |members| && Grouped(roots, IdSet(members[..n]), order, groups)
    {
      SeenSoFar(roots.Keys, members, n);
      GroupStep(roots, IdSet(members[..n]), order, groups, members[n]);
      var grown := AddToGroup(roots, order, groups, members[n]);
      order, groups := grown.0, grown.1;
      n := n + 1;
    }
    assert members[..n] == members;
    components := ListGroups(roots, members[..n], order, groups);
  }

  /** The groups in the order they opened. */
  method ListGroups(roots: Partition, ghost members: seq<RecordId>, order: seq<RecordId>, groups: Groups)
    returns (components: seq<seq<RecordId>>)
    requires IdSet(members) == roots.Keys && Grouped(roots, IdSet(members), order, groups)
    ensures components == ComponentList(roots)
  {
    GroupedAll(roots, order, groups);
    components := seq(|order|, k requires 0 <= k < |order| && order[k] in groups => groups[order[k]]);
  }

  /** In an ascending visit, what was seen before position `n` is exactly what is smaller. */
  lemma SeenSoFar(ids: set<RecordId>, members: seq<RecordId>, n: nat)
    requires Lists(members, ids) && n < |members|
    ensures members[n] in ids
    ensures IdSet(members[..n]) == set x | x in ids && x < members[n]
    ensures IdSet(members[..n + 1]) == IdSet(members[..n]) + {members[n]}
  {
    assert members[n] in members;
    forall x | x in ids && x < members[n]
      ensures x in members[..n]
    {
      assert x in members;
      var i :| 0 <= i < |members| && members[i] == x;
      assert members[..n][i] == x;
    }
    assert members[..n + 1] == members[..n] + [members[n]];
  }

  lemma GroupStep(roots: Partition, seen: set<RecordId>, order: seq<RecordId>, groups: Groups, member: RecordId)
    requires Canonical(roots) && member in roots
    requires seen == set x | x in roots && x < member
    requires Grouped(roots, seen, order, groups)
    ensures var grown := AddToGroup(roots, order, groups, member);
            Grouped(roots, seen + {member}, grown.0, grown.1)
  {
    var root, now := roots[member], seen + {member};
    assert Names(roots, member, root);
    var grown := groups[root := if root in groups then groups[root] + [member] else [member]];
    if root in groups {
      assert ClassNames(roots) * now == ClassNames(roots) * seen;
    } else {
      assert root == member;
      assert ClassNames(roots) * now == ClassNames(roots) * seen + {member};
      ListsAppend(order, ClassNames(roots) * seen, member);
    }
    assert grown.Keys == ClassNames(roots) * now;
    forall r | r in grown
      ensures Lists(grown[r], Component(roots, r) * now)
    {
      GroupOf(roots, seen, member, r);
      if r == root && r in groups {
        ListsAppend(groups[r], Component(roots, r) * seen, member);
      }
    }
  }

  /** How one more record changes the part of a class seen so far. */
  lemma GroupOf(roots: Partition, seen: set<RecordId>, member: RecordId, r: RecordId)
    requires Canonical(roots) && member in roots && Names(roots, r, r)
    requires seen == set x | x in roots && x < member
    ensures r != roots[member] ==> Component(roots, r) * (seen + {member}) == Component(roots, r) * seen
    ensures r == roots[member] ==>
      Component(roots, r) * (seen + {member}) == Component(roots, r) * seen + {member}
    ensures r == member ==> Component(roots, r) * seen == {}
  {
    if r == member {
      forall x | x in Component(roots, r)
        ensures x !in seen
      {
        assert Names(roots, x, r);
      }
    }
  }

  lemma GroupedAll(roots: Partition, order: seq<RecordId>, groups: Groups)
    requires Grouped(roots, roots.Keys, order, groups)
    ensures |order| == |ComponentList(roots)|
    ensures forall k :: 0 <= k < |order| ==> order[k] in groups && groups[order[k]] == ComponentList(roots)[k]
  {
    assert ClassNames(roots) * roots.Keys == ClassNames(roots);
    ListsIsSorted(order, ClassNames(roots));
    forall k | 0 <= k < |order|
      ensures order[k] in groups && groups[order[k]] == ComponentList(roots)[k]
    {
      assert order[k] in order;
      assert Component(roots, order[k]) * roots.Keys == Component(roots, order[k]);
      ListsIsSorted(groups[order[k]], Component(roots, order[k]));
    }
  }
}
