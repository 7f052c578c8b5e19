/** The NO_MATCH closure check: may a MATCH be recorded at all? */
module Constraints {
  import opened Records
  import opened Partitions
  import opened GreedyPass
  import opened Review
  import UnionFind

  /** The match graph the check reads: pairs handed in replace the outcome's, when there are any. */
  function EffectiveMatches(cases: seq<ReviewCase>, existing: set<Pair>): set<Pair> {
    if existing != {} then existing else MatchPairs(cases)
  }

  /** NO_MATCH pairs handed in add to the outcome's. */
  function EffectiveNoMatches(cases: seq<ReviewCase>, existing: set<Pair>): set<Pair> {
    NoMatchPairs(cases) + existing
  }

  /** Some NO_MATCH pair is joined by a path of MATCH pairs. */
  ghost predicate Contradictory(matches: set<Pair>, noMatches: set<Pair>) {
    exists n :: n in noMatches && Connected(matches, n.a, n.b)
  }

  function Endpoints(pairs: set<Pair>): set<RecordId> {
    (set p | p in pairs :: p.a) + (set p | p in pairs :: p.b)
  }

  method NoMatchBlocksMerge(left: set<RecordId>, right: set<RecordId>, noMatches: set<Pair>) returns (blocks: bool)
    ensures blocks <==> Blocked(left + right, noMatches)
  {
    var proposed := left + right;
    var todo := noMatches;
    while todo != {}
      invariant todo <= noMatches
      invariant !Blocked(proposed, noMatches - todo)
      decreases todo
    {
      var pair :| pair in todo;
      if pair.a in proposed && pair.b in proposed {
        assert Inside(pair, proposed);
        return true;
      }
      todo := todo - {pair};
    }
    assert noMatches - todo == noMatches;
    blocks := false;
  }

  /** True when the MATCH may be recorded, false where the original raises a contradiction: exactly when
      no NO_MATCH pair is connected by a path of MATCH pairs including the new one. */
  method HumanMatchAllowed(
    pair: Pair, cases: seq<ReviewCase>, existingMatches: set<Pair>, existingNoMatches: set<Pair>)
    returns (allowed: bool)
    ensures allowed <==>
      !Contradictory(EffectiveMatches(cases, existingMatches) + {pair}, EffectiveNoMatches(cases, existingNoMatches))
    ensures allowed <==> forall n :: n in NoMatchPairs(cases) + existingNoMatches ==>
      !Connected((if existingMatches == {} then MatchPairs(cases) else existingMatches) + {pair}, n.a, n.b)
  {
    var noMatches := EffectiveNoMatches(cases, existingNoMatches);
    var matches := EffectiveMatches(cases, existingMatches) + {pair};
    if pair in noMatches {
      EdgeConnects(matches, pair);
      return false;
    }
    var members := Endpoints(matches);
    var edges := SortedPairs(matches);
    assert EdgeSet(edges) == matches && Known(edges, members);
    allowed := AllJoinable(members, edges, noMatches);
  }

  /** The loop over the match pairs, refusing at the first union that would close over a NO_MATCH pair. */
  method AllJoinable(members: set<RecordId>, edges: seq<Pair>, noMatches: set<Pair>) returns (joinable: bool)
    requires Known(edges, members)
    ensures joinable <==> !Contradictory(EdgeSet(edges), noMatches)
  {
    var unionFind := new UnionFind.CompressingUnionFind(members);
    var n := 0;
    while n < |edges|
      invariant n <= |edges| && unionFind.Valid() && fresh(unionFind)
      invariant unionFind.classes == MergeAll(Discrete(members), edges[..n])
      invariant Safe(unionFind.classes, noMatches)
    {
      assert edges[..n + 1][..n] == edges[..n];
      var joined := JoinUnlessBlocked(unionFind, edges[n], noMatches);
      n := n + 1;
      if !joined {
        BlockedUnionConnects(members, edges, n, noMatches);
        return false;
      }
    }
    assert edges[..n] == edges;
    SafeMeansConsistent(members, edges, noMatches);
    joinable := true;
  }

  /** One turn of the loop: check the two classes, then union them. */
  method JoinUnlessBlocked(unionFind: UnionFind.CompressingUnionFind, matched: Pair, noMatches: set<Pair>)
    returns (joined: bool)
    requires unionFind.Valid() && Inside(matched, unionFind.classes.Keys) && Safe(unionFind.classes, noMatches)
    modifies unionFind
    ensures unionFind.Valid()
    ensures joined <==> !Blocked(Proposed(old(unionFind.classes), matched), noMatches)
    ensures joined ==> unionFind.classes == Merge(old(unionFind.classes), matched) && Safe(unionFind.classes, noMatches)
  {
    ghost var before := unionFind.classes;
    var left := unionFind.MembersOf(matched.a);
    var right := unionFind.MembersOf(matched.b);
    assert left + right == Proposed(before, matched);
    var blocks := NoMatchBlocksMerge(left, right, noMatches);
    if blocks {
      return false;
    }
    MergeKeepsSafe(before, matched, noMatches);
    var _ := unionFind.Union(matched);
    joined := true;
  }

  lemma BlockedUnionConnects(members: set<RecordId>, edges: seq<Pair>, n: nat, noMatches: set<Pair>)
    requires Known(edges, members) && 0 < n <= |edges|
    requires Blocked(Proposed(MergeAll(Discrete(members), edges[..n - 1]), edges[n - 1]), noMatches)
    ensures Contradictory(EdgeSet(edges), noMatches)
  {
    var p := MergeAll(Discrete(members), edges[..n - 1]);
    var f :| f in noMatches && Inside(f, Proposed(p, edges[n - 1]));
    MergeJoins(p, edges[n - 1], f.a, f.b);
    assert edges[..n][..n - 1] == edges[..n - 1];
    MergeAllJoinsOnlyConnected(members, edges[..n], EdgeSet(edges));
    assert Same(MergeAll(Discrete(members), edges[..n]), f.a, f.b);
  }

  lemma SafeMeansConsistent(members: set<RecordId>, edges: seq<Pair>, noMatches: set<Pair>)
    requires Known(edges, members)
    requires Safe(MergeAll(Discrete(members), edges), noMatches)
    ensures !Contradictory(EdgeSet(edges), noMatches)
  {
    forall f | f in noMatches
      ensures !Connected(EdgeSet(edges), f.a, f.b)
    {
      if f.a in members {
        MergeAllIsReachability(members, edges, f.a, f.b);
      } else {
        OutsiderIsIsolated(members, edges, f.a, f.b);
      }
    }
  }

  /** No path leaves a record that no edge touches. */
  lemma OutsiderIsIsolated(members: set<RecordId>, edges: seq<Pair>, x: RecordId, y: RecordId)
    requires Known(edges, members) && x !in members && x != y
    ensures !Connected(EdgeSet(edges), x, y)
  {
    forall path: seq<RecordId> | |path| > 1 && path[0] == x
      ensures !IsPath(EdgeSet(edges), path)
    {
      assert !Adjacent(EdgeSet(edges), path[0], path[0 + 1]);
    }
  }

  // ---- how contradiction behaves as decisions accumulate ---------------------------------------------------

  /** More recorded decisions never remove a contradiction. */
  lemma ContradictionGrows(matches: set<Pair>, noMatches: set<Pair>, moreMatches: set<Pair>, moreNoMatches: set<Pair>)
    requires matches <= moreMatches && noMatches <= moreNoMatches
    ensures Contradictory(matches, noMatches) ==> Contradictory(moreMatches, moreNoMatches)
  {
    if n :| n in noMatches && Connected(matches, n.a, n.b) {
      MoreEdgesConnectMore(matches, moreMatches, n.a, n.b);
    }
  }

  /** A new NO_MATCH makes a consistent record contradictory exactly when MATCH pairs already join its ends. */
  lemma WhenNoMatchContradicts(matches: set<Pair>, noMatches: set<Pair>, pair: Pair)
    requires !Contradictory(matches, noMatches)
    ensures Contradictory(matches, noMatches + {pair}) <==> Connected(matches, pair.a, pair.b)
  {
  }
}
