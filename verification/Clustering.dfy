/** Automatic clustering of AUTO_MATCH edges under the severe-conflict guard. */
module Clustering {
  import opened Sorting
  import opened Records
  import opened Partitions
  import opened GreedyPass
  import opened Resolution
  import UnionFind

  /** The pairwise scan for a severe conflict inside one group, smaller id first. */
  method HasSevereInternalConflict(members: seq<RecordId>, config: Config) returns (found: bool)
    requires AscendingIds(members)
    ensures found <==> Blocked(IdSet(members), config.severe)
  {
    var left := 0;
    while left < |members|
      invariant left <= |members|
      invariant forall i, j :: 0 <= i < left && i < j < |members| ==> RecordPair(members[i], members[j]) !in config.severe
    {
      var right := left + 1;
      while right < |members|
        invariant left + 1 <= right <= |members|
        invariant forall j :: left < j < right ==> RecordPair(members[left], members[j]) !in config.severe
      {
        var pair: Pair := RecordPair(members[left], members[right]);
        if pair in config.severe {
          assert Inside(pair, IdSet(members));
          return true;
        }
        right := right + 1;
      }
      left := left + 1;
    }
    forall p | p in config.severe
      ensures !Inside(p, IdSet(members))
    {
      if Inside(p, IdSet(members)) {
        PairIsVisited(members, p);
      }
    }
    found := false;
  }

  lemma PairIsVisited(members: seq<RecordId>, p: Pair)
    requires AscendingIds(members) && Inside(p, IdSet(members))
    ensures exists i, j :: 0 <= i < j < |members| && RecordPair(members[i], members[j]) == p
  {
    var i :| 0 <= i < |members| && members[i] == p.a;
    var j :| 0 <= j < |members| && members[j] == p.b;
    assert i < j;
  }

  // ---- edge order: highest score first, then by pair -----------------------------------------------------

  predicate Before(d: MatchDecision, e: MatchDecision) {
    d.score > e.score || (d.score == e.score && (d.pair == e.pair || PairLess(d.pair, e.pair)))
  }

  function SortByScore(decisions: seq<MatchDecision>): seq<MatchDecision> {
    StableSort(decisions, Before)
  }

  lemma BeforeOrders()
    ensures Orders(Before)
  {
  }

  /** The edge order is a permutation of the decisions, highest score first. */
  lemma SortByScoreSorts(decisions: seq<MatchDecision>)
    ensures SortedBy(SortByScore(decisions), Before)
    ensures multiset(SortByScore(decisions)) == multiset(decisions)
  {
    BeforeOrders();
    SortSorts(decisions, Before);
    SortKeepsAll(decisions, Before);
  }

  /** Of two decisions the one with the higher score comes first, and of two that tie the one with the smaller pair. */
  lemma HigherScoreComesFirst(decisions: seq<MatchDecision>, i: nat, j: nat)
    requires i < j < |SortByScore(decisions)|
    ensures var first, second := SortByScore(decisions)[i], SortByScore(decisions)[j];
            second.score <= first.score && (first.score == second.score ==> !PairLess(second.pair, first.pair))
  {
    SortByScoreSorts(decisions);
  }

  /** The AUTO_MATCH edges in the order automatic clustering takes them. */
  function EdgesByScore(decisions: seq<MatchDecision>): seq<Pair> {
    PairsOf(SortByScore(AutoMatches(decisions)))
  }

  lemma EdgesByScoreAreKnown(ids: set<RecordId>, decisions: seq<MatchDecision>)
    requires Covers(ids, decisions)
    ensures Known(EdgesByScore(decisions), ids)
  {
    CoveredEdgesAreKnown(ids, decisions);
    var autos := AutoMatches(decisions);
    SortByScoreSorts(autos);
    forall d | d in SortByScore(autos)
      ensures Inside(d.pair, ids)
    {
      assert d in multiset(autos);
    }
  }

  /** What the guard forbids: severe pairs when it is on, nothing when it is off. */
  function Guarded(config: Config): set<Pair> {
    if config.clusterConflictGuard then config.severe else {}
  }

  /** The pass automatic clustering makes. */
  function ClusteringPass(decisions: seq<MatchDecision>, ids: set<RecordId>, config: Config): Pass
    requires Covers(ids, decisions)
  {
    EdgesByScoreAreKnown(ids, decisions);
    Greedy(Discrete(ids), EdgesByScore(decisions), Guarded(config), {})
  }

  /** The clusters: components of two or more records, numbered by position among all components. */
  function EntityClusters(components: seq<seq<RecordId>>, accepted: seq<Pair>, severe: set<Pair>): seq<EntityCluster> {
    if components == [] then [] else
      var members := components[|components| - 1];
      EntityClusters(components[..|components| - 1], accepted, severe) +
      if |members| < 2 then [] else
        [EntityCluster(AutoCluster(|components|), members, Within(accepted, IdSet(members)),
                       Blocked(IdSet(members), severe))]
  }

  method BuildEntityClusters(decisions: seq<MatchDecision>, ids: set<RecordId>, config: Config)
    returns (clusters: seq<EntityCluster>, conflictGuarded: nat)
    requires Covers(ids, decisions)
    ensures var pass := ClusteringPass(decisions, ids, config);
            && conflictGuarded == RefusedCount(pass.taken)
            && clusters == if AutoMatches(decisions) == [] then [] else
                 EntityClusters(ComponentList(pass.part), Chosen(EdgesByScore(decisions), pass.taken), config.severe)
  {
    var edges := EdgesByScore(decisions);
    EdgesByScoreAreKnown(ids, decisions);
    if AutoMatches(decisions) == [] {
      return [], 0;
    }
    var roots, accepted, guarded := AcceptEdges(edges, ids, config);
    GreedyIsCanonical(Discrete(ids), edges, Guarded(config), {});
    var components := GroupByRoot(roots);
    clusters := ListClusters(components, accepted, config);
    conflictGuarded := guarded;
  }

  /** How far an edge loop has come: the pass over a prefix, and the edges it accepted. */
  ghost predicate JoinedSoFar(
    start: Partition, edges: seq<Pair>, forbidden: set<Pair>, pass: Pass, accepted: seq<Pair>)
    requires Known(edges, start.Keys)
  {
    pass == Greedy(start, edges, forbidden, {}) && accepted == Chosen(edges, pass.taken)
  }

  /** One turn of such a loop: an edge more, refused or joined. */
  lemma JoinStep(start: Partition, edges: seq<Pair>, forbidden: set<Pair>, n: nat, pass: Pass, accepted: seq<Pair>)
    returns (next: Pass)
    requires Known(edges, start.Keys) && n < |edges|
    requires JoinedSoFar(start, edges[..n], forbidden, pass, accepted)
    ensures Inside(edges[n], pass.part.Keys)
    ensures var refused := Refused(pass.part, edges[n], forbidden, {});
            && next.part == (if refused then pass.part else Merge(pass.part, edges[n]))
            && RefusedCount(next.taken) == RefusedCount(pass.taken) + (if refused then 1 else 0)
            && JoinedSoFar(start, edges[..n + 1], forbidden, next, if refused then accepted else accepted + [edges[n]])
  {
    PassStep(start, edges, forbidden, n, pass);
    next := Step(pass, edges[n], forbidden, {});
  }

  /** The edge loop: accept, or count as guarded, each edge in turn. */
  method AcceptEdges(edges: seq<Pair>, ids: set<RecordId>, config: Config)
    returns (roots: Partition, accepted: seq<Pair>, conflictGuarded: nat)
    requires Known(edges, ids)
    ensures var pass := Greedy(Discrete(ids), edges, Guarded(config), {});
            roots == pass.part && accepted == Chosen(edges, pass.taken) && conflictGuarded == RefusedCount(pass.taken)
  {
    var unionFind := new UnionFind.CompressingUnionFind(ids);
    accepted, conflictGuarded := AcceptInto(unionFind, edges, config);
    roots := unionFind.Roots();
  }

  method AcceptInto(unionFind: UnionFind.CompressingUnionFind, edges: seq<Pair>, config: Config)
    returns (accepted: seq<Pair>, conflictGuarded: nat)
    requires unionFind.Valid() && Known(edges, unionFind.classes.Keys) && Safe(unionFind.classes, Guarded(config))
    modifies unionFind
    ensures unionFind.Valid()
    ensures var pass := Greedy(old(unionFind.classes), edges, Guarded(config), {});
            unionFind.classes == pass.part && accepted == Chosen(edges, pass.taken) &&
            conflictGuarded == RefusedCount(pass.taken)
  {
    ghost var start := unionFind.classes;
    ghost var pass := Pass(start, []);
    accepted, conflictGuarded := [], 0;
    var n := 0;
    while n < |edges|
      invariant n <= |edges| && unionFind.Valid() && unionFind.classes == pass.part
      invariant AcceptedSoFar(start, edges[..n], Guarded(config), pass, accepted, conflictGuarded)
    {
      accepted, conflictGuarded, pass := AcceptNext(unionFind, edges, n, config, start, pass, accepted, conflictGuarded);
      n := n + 1;
    }
    assert edges[..n] == edges;
  }

  /** With the guarded count, and every component still free of guarded pairs. */
  ghost predicate AcceptedSoFar(
    start: Partition, edges: seq<Pair>, forbidden: set<Pair>, pass: Pass, accepted: seq<Pair>, guarded: nat)
    requires Known(edges, start.Keys)
  {
    JoinedSoFar(start, edges, forbidden, pass, accepted) && Safe(pass.part, forbidden) &&
    guarded == RefusedCount(pass.taken)
  }

  /** One turn of the edge loop. */
  method AcceptNext(
    unionFind: UnionFind.CompressingUnionFind, edges: seq<Pair>, n: nat, config: Config, ghost start: Partition,
    ghost pass: Pass, before: seq<Pair>, guarded: nat)
    returns (accepted: seq<Pair>, conflictGuarded: nat, ghost next: Pass)
    requires unionFind.Valid() && unionFind.classes == pass.part && Known(edges, start.Keys) && n < |edges|
    requires AcceptedSoFar(start, edges[..n], Guarded(config), pass, before, guarded)
    modifies unionFind
    ensures unionFind.Valid() && unionFind.classes == next.part
    ensures AcceptedSoFar(start, edges[..n + 1], Guarded(config), next, accepted, conflictGuarded)
  {
    accepted, conflictGuarded := before, guarded;
    next := JoinStep(start, edges, Guarded(config), n, pass, accepted);
    var accept := TryEdge(unionFind, edges[n], config);
    if accept {
      accepted := accepted + [edges[n]];
    } else {
      conflictGuarded := conflictGuarded + 1;
    }
  }

  /** One edge: an edge inside one class is accepted unasked, any other is joined unless the guard trips. */
  method TryEdge(unionFind: UnionFind.CompressingUnionFind, edge: Pair, config: Config) returns (accept: bool)
    requires unionFind.Valid() && Inside(edge, unionFind.classes.Keys)
    requires Safe(unionFind.classes, Guarded(config))
    modifies unionFind
    ensures unionFind.Valid() && Safe(unionFind.classes, Guarded(config))
    ensures accept <==> !Refused(old(unionFind.classes), edge, Guarded(config), {})
    ensures unionFind.classes == if accept then Merge(old(unionFind.classes), edge) else old(unionFind.classes)
  {
    ghost var before := unionFind.classes;
    UnionFind.UnderBothRoots(before, edge);
    var leftRoot := unionFind.Find(edge.a);
    var rightRoot := unionFind.Find(edge.b);
    if leftRoot == rightRoot {
      JoinedEdgeIsAccepted(before, edge, Guarded(config));
      return true;
    }
    var proposed := unionFind.MembersUnder({leftRoot, rightRoot});
    var hasConflict := GuardTrips(proposed, config);
    if hasConflict {
      return false;
    }
    MergeKeepsSafe(before, edge, Guarded(config));
    var _ := unionFind.Union(edge);
    accept := true;
  }

  /** The guard's question about one proposed group; never asked when the guard is off. */
  method GuardTrips(proposed: set<RecordId>, config: Config) returns (trips: bool)
    ensures trips <==> Blocked(proposed, Guarded(config))
  {
    if !config.clusterConflictGuard {
      return false;
    }
    assert IdSet(SortedIds(proposed)) == proposed;
    trips := HasSevereInternalConflict(SortedIds(proposed), config);
  }

  method ListClusters(components: seq<seq<RecordId>>, accepted: seq<Pair>, config: Config)
    returns (clusters: seq<EntityCluster>)
    requires forall k :: 0 <= k < |components| ==> AscendingIds(components[k])
    ensures clusters == EntityClusters(components, accepted, config.severe)
  {
    clusters := [];
    var k := 0;
    while k < |components|
      invariant k <= |components|
      invariant clusters == EntityClusters(components[..k], accepted, config.severe)
    {
      var members := components[k];
      assert components[..k + 1][..k] == components[..k];
      k := k + 1;
      if |members| < 2 {
        continue;
      }
      var hasConflict := HasSevereInternalConflict(members, config);
      clusters := clusters +
        [EntityCluster(AutoCluster(k), members, Within(accepted, IdSet(members)), hasConflict)];
    }
    assert components[..k] == components;
  }

  /** One more edge, seen in the pass, in the accepted list and in the refusal count. */
  lemma PassStep(start: Partition, edges: seq<Pair>, forbidden: set<Pair>, n: nat, before: Pass)
    requires Known(edges, start.Keys) && n < |edges|
    requires before == Greedy(start, edges[..n], forbidden, {})
    ensures var after := Step(before, edges[n], forbidden, {});
            && after == Greedy(start, edges[..n + 1], forbidden, {})
            && if Refused(before.part, edges[n], forbidden, {})
               then Chosen(edges[..n + 1], after.taken) == Chosen(edges[..n], before.taken)
                    && RefusedCount(after.taken) == RefusedCount(before.taken) + 1
               else Chosen(edges[..n + 1], after.taken) == Chosen(edges[..n], before.taken) + [edges[n]]
                    && RefusedCount(after.taken) == RefusedCount(before.taken)
  {
    var upto := edges[..n + 1];
    assert upto[..|upto| - 1] == edges[..n];
    var accept := !Refused(before.part, edges[n], forbidden, {});
    ChosenStep(upto, before.taken, accept);
    assert Chosen(edges[..n], before.taken) + [] == Chosen(edges[..n], before.taken);
    assert (before.taken + [accept])[..n] == before.taken;
  }

  /** A class without a forbidden pair does not refuse an edge of its own. */
  lemma JoinedEdgeIsAccepted(p: Partition, edge: Pair, forbidden: set<Pair>)
    requires Inside(edge, p.Keys) && Safe(p, forbidden) && Same(p, edge.a, edge.b)
    ensures !Refused(p, edge, forbidden, {}) && Merge(p, edge) == p
  {
    SafeIsUnblocked(p, forbidden, edge.a);
    assert Proposed(p, edge) == Component(p, edge.a);
    UnionFind.UnionOfOneClass(p, edge);
  }

  // ---- what automatic clustering promises ------------------------------------------------------------------

  /** Greedy maximality. With the guard on, no component holds a severe pair; an AUTO_MATCH edge's ends
      finish together exactly when it was accepted; a refused edge's two components would together hold a
      severe pair; and the guarded count is the number of AUTO_MATCH edges split across components. */
  lemma GuardedClusteringIsMaximal(decisions: seq<MatchDecision>, ids: set<RecordId>, config: Config)
    requires Covers(ids, decisions) && Known(EdgesByScore(decisions), ids)
    ensures var edges, pass := EdgesByScore(decisions), ClusteringPass(decisions, ids, config);
            && Safe(pass.part, Guarded(config))
            && (forall i :: 0 <= i < |edges| ==> (pass.taken[i] <==> Same(pass.part, edges[i].a, edges[i].b)))
            && (forall i :: 0 <= i < |edges| && !pass.taken[i] ==> Blocked(Proposed(pass.part, edges[i]), Guarded(config)))
            && RefusedCount(pass.taken) == |SplitEdges(pass.part, edges)|
  {
    var edges, pass := EdgesByScore(decisions), ClusteringPass(decisions, ids, config);
    GreedyIsSafe(Discrete(ids), edges, Guarded(config));
    forall i | 0 <= i < |edges|
      ensures pass.taken[i] <==> Same(pass.part, edges[i].a, edges[i].b)
      ensures !pass.taken[i] ==> Blocked(Proposed(pass.part, edges[i]), Guarded(config))
    {
      TakenIffJoined(Discrete(ids), edges, Guarded(config), i);
      if !pass.taken[i] {
        RefusedForGoodReason(Discrete(ids), edges, Guarded(config), {}, i);
      }
    }
    RefusedAreSplit(pass.part, edges, pass.taken);
  }

  /** Score order only permutes the AUTO_MATCH edges. */
  lemma SameEdgesByScore(decisions: seq<MatchDecision>)
    ensures EdgeSet(EdgesByScore(decisions)) == EdgeSet(AutoEdges(decisions))
  {
    var autos := AutoMatches(decisions);
    var sorted := SortByScore(autos);
    SortByScoreSorts(autos);
    forall e
      ensures e in PairsOf(sorted) <==> e in PairsOf(autos)
    {
      PairIsOf(sorted, e);
      PairIsOf(autos, e);
      assert forall d :: d in sorted <==> d in multiset(sorted);
    }
  }

  lemma PairIsOf(decisions: seq<MatchDecision>, e: Pair)
    ensures e in PairsOf(decisions) <==> exists d :: d in decisions && d.pair == e
  {
    if e in PairsOf(decisions) {
      var i :| 0 <= i < |decisions| && PairsOf(decisions)[i] == e;
      assert decisions[i] in decisions;
    }
    if d :| d in decisions && d.pair == e {
      var i :| 0 <= i < |decisions| && decisions[i] == d;
      assert PairsOf(decisions)[i] == e;
    }
  }

  /** When nothing is refused (the guard is off, say), components are exactly AUTO_MATCH reachability. */
  lemma UnrefusedClusteringIsReachability(
    decisions: seq<MatchDecision>, ids: set<RecordId>, config: Config, x: RecordId, y: RecordId)
    requires Covers(ids, decisions) && x in ids
    requires !config.clusterConflictGuard || RefusedCount(ClusteringPass(decisions, ids, config).taken) == 0
    ensures Same(ClusteringPass(decisions, ids, config).part, x, y)
            <==> Connected(EdgeSet(AutoEdges(decisions)), x, y)
  {
    var edges, pass := EdgesByScore(decisions), ClusteringPass(decisions, ids, config);
    EdgesByScoreAreKnown(ids, decisions);
    forall i | 0 <= i < |edges|
      ensures pass.taken[i]
    {
      if !config.clusterConflictGuard {
        DecidedAt(Discrete(ids), edges, {}, {}, i);
      } else {
        NothingRefused(pass.taken, i);
      }
    }
    AllChosen(edges, pass.taken);
    GreedyMergesChosen(Discrete(ids), edges, Guarded(config), {});
    MergeAllIsReachability(ids, edges, x, y);
    SameEdgesByScore(decisions);
  }

  lemma {:induction false} NothingRefused(taken: seq<bool>, i: nat)
    requires i < |taken| && RefusedCount(taken) == 0
    ensures taken[i]
    decreases |taken|
  {
    if i < |taken| - 1 {
      NothingRefused(taken[..|taken| - 1], i);
    }
  }

  lemma {:induction false} AllChosen(edges: seq<Pair>, taken: seq<bool>)
    requires |edges| == |taken| && forall i :: 0 <= i < |taken| ==> taken[i]
    ensures Chosen(edges, taken) == edges
    decreases |edges|
  {
    if edges != [] {
      AllChosen(edges[..|edges| - 1], taken[..|edges| - 1]);
    }
  }

  // ---- what the cluster list says -------------------------------------------------------------------------------

  lemma {:induction false} ClusterComesFrom(
    components: seq<seq<RecordId>>, accepted: seq<Pair>, severe: set<Pair>, c: EntityCluster)
    requires c in EntityClusters(components, accepted, severe)
    ensures c.members in components && |c.members| >= 2
    ensures c.autoMatchEdges == Within(accepted, IdSet(c.members))
    ensures c.hasInternalConflict <==> Blocked(IdSet(c.members), severe)
    decreases |components|
  {
    var front := components[..|components| - 1];
    if c in EntityClusters(front, accepted, severe) {
      ClusterComesFrom(front, accepted, severe, c);
    }
  }

  lemma {:induction false} ComponentBecomesCluster(
    components: seq<seq<RecordId>>, accepted: seq<Pair>, severe: set<Pair>, members: seq<RecordId>)
    requires members in components && |members| >= 2
    ensures exists c :: c in EntityClusters(components, accepted, severe) && c.members == members
    decreases |components|
  {
    var front := components[..|components| - 1];
    if members in front {
      ComponentBecomesCluster(front, accepted, severe, members);
      var c :| c in EntityClusters(front, accepted, severe) && c.members == members;
      assert c in EntityClusters(components, accepted, severe);
    } else {
      assert members == components[|components| - 1];
      var c := EntityCluster(AutoCluster(|components|), members, Within(accepted, IdSet(members)),
                             Blocked(IdSet(members), severe));
      assert c in EntityClusters(components, accepted, severe);
    }
  }

  /** Every component of two or more records is listed whole. */
  lemma LargeComponentIsListed(p: Partition, accepted: seq<Pair>, severe: set<Pair>, x: RecordId)
    requires Canonical(p) && x in p && |SortedIds(Component(p, x))| >= 2
    ensures exists c :: c in EntityClusters(ComponentList(p), accepted, severe) && c.members == SortedIds(Component(p, x))
  {
    ComponentIsListed(p, x);
    ComponentBecomesCluster(ComponentList(p), accepted, severe, SortedIds(Component(p, x)));
  }

  /** Every listed cluster is a whole component of two or more records, flagged exactly when it holds a
      severe pair. */
  lemma ListedIsLargeComponent(p: Partition, accepted: seq<Pair>, severe: set<Pair>, c: EntityCluster)
    returns (x: RecordId)
    requires Canonical(p) && c in EntityClusters(ComponentList(p), accepted, severe)
    ensures x in p && IdSet(c.members) == Component(p, x) && c.members == SortedIds(Component(p, x)) && |c.members| >= 2
    ensures c.hasInternalConflict <==> Blocked(Component(p, x), severe)
    ensures c.autoMatchEdges == Within(accepted, Component(p, x))
  {
    ClusterComesFrom(ComponentList(p), accepted, severe, c);
    var k :| 0 <= k < |ComponentList(p)| && ComponentList(p)[k] == c.members;
    ListedIsComponent(p, k);
    x :| x in p && ComponentList(p)[k] == SortedIds(Component(p, x));
    MembersOfSorted(c.members, Component(p, x));
  }

  lemma MembersOfSorted(members: seq<RecordId>, ids: set<RecordId>)
    requires members == SortedIds(ids)
    ensures IdSet(members) == ids
  {
  }

  /** With the guard on, no cluster automatic clustering lists is flagged as conflicting. */
  lemma GuardedClustersAreUnflagged(
    decisions: seq<MatchDecision>, ids: set<RecordId>, config: Config, accepted: seq<Pair>, c: EntityCluster)
    requires Covers(ids, decisions) && config.clusterConflictGuard
    requires c in EntityClusters(ComponentList(ClusteringPass(decisions, ids, config).part), accepted, config.severe)
    ensures !c.hasInternalConflict
  {
    var part := ClusteringPass(decisions, ids, config).part;
    EdgesByScoreAreKnown(ids, decisions);
    GreedyIsCanonical(Discrete(ids), EdgesByScore(decisions), Guarded(config), {});
    GreedyIsSafe(Discrete(ids), EdgesByScore(decisions), Guarded(config));
    var x := ListedIsLargeComponent(part, accepted, config.severe, c);
    SafeIsUnblocked(part, config.severe, x);
  }
}
