/** Review-aware clustering: the final clusters once human decisions are recorded. */
module Integration {
  import opened Results
  import opened Records
  import opened Partitions
  import opened GreedyPass
  import opened Resolution
  import opened Review
  import opened Constraints
  import opened Authorization
  import opened Clustering
  import UnionFind

  /** The AUTO_MATCH pass, in decision order, under NO_MATCH pairs and the conflict guard. */
  function AutoPass(ids: set<RecordId>, auto: seq<Pair>, noMatches: set<Pair>, config: Config): Pass
    requires Known(auto, ids)
  {
    Greedy(Discrete(ids), auto, noMatches + Guarded(config), {})
  }

  /** The human pass that follows it, under NO_MATCH pairs only. */
  function HumanPass(ids: set<RecordId>, auto: seq<Pair>, matches: set<Pair>, noMatches: set<Pair>, config: Config): (g: Pass)
    requires Grounded(ids, auto, matches)
    ensures g.part.Keys == ids
  {
    Greedy(AutoPass(ids, auto, noMatches, config).part, SortedPairs(matches), noMatches, {})
  }

  function AutoCount(clusters: seq<EntityCluster>): (n: nat)
    ensures n <= |clusters|
  {
    if clusters == [] then 0 else
      AutoCount(clusters[..|clusters| - 1]) + if clusters[|clusters| - 1].id.AutoCluster? then 1 else 0
  }

  /** The cluster a component becomes after `front`, if any: numbered in one of two series, for components that
      hold an accepted AUTO_MATCH edge and for those held together by human edges alone. */
  function NextCluster(
    front: seq<EntityCluster>, members: seq<RecordId>, auto: seq<Pair>, human: seq<Pair>, severe: set<Pair>)
    : Option<EntityCluster>
  {
    var autoEdges, humanEdges := Within(auto, IdSet(members)), Within(human, IdSet(members));
    if |members| < 2 || (autoEdges == [] && humanEdges == []) then None
    else
      var id := if autoEdges != [] then AutoCluster(AutoCount(front) + 1)
                else HumanCluster(|front| - AutoCount(front) + 1);
      Some(EntityCluster(id, members, autoEdges, Blocked(IdSet(members), severe)))
  }

  /** The clusters, in order of least member. */
  function ReviewClusters(
    components: seq<seq<RecordId>>, auto: seq<Pair>, human: seq<Pair>, severe: set<Pair>): seq<EntityCluster>
  {
    if components == [] then [] else
      var front := ReviewClusters(components[..|components| - 1], auto, human, severe);
      var next := NextCluster(front, components[|components| - 1], auto, human, severe);
      if next.None? then front else front + [next.value]
  }

  /** What both passes leave, listed. */
  function FinalClusters(
    ids: set<RecordId>, auto: seq<Pair>, matches: set<Pair>, noMatches: set<Pair>, config: Config): seq<EntityCluster>
    requires Grounded(ids, auto, matches)
  {
    ReviewClusters(
      ComponentList(HumanPass(ids, auto, matches, noMatches, config).part),
      Chosen(auto, AutoPass(ids, auto, noMatches, config).taken), SortedPairs(matches), config.severe)
  }

  method BuildReviewAwareClusters(
    decisions: seq<MatchDecision>, outcome: Option<seq<ReviewCase>>, config: Config, ids: set<RecordId>)
    returns (clusters: seq<EntityCluster>)
    requires if outcome.None? then Covers(ids, decisions)
             else Grounded(ids, AutoEdges(decisions), MatchPairs(outcome.value))
    ensures outcome.Some? ==>
              var cases := outcome.value;
              clusters == FinalClusters(ids, AutoEdges(decisions), MatchPairs(cases), NoMatchPairs(cases), config)
    ensures outcome.None? ==>
              var pass := ClusteringPass(decisions, ids, config);
              clusters == if AutoMatches(decisions) == [] then [] else
                EntityClusters(ComponentList(pass.part), Chosen(EdgesByScore(decisions), pass.taken), config.severe)
  {
    if outcome.None? {
      var automatic, _ := BuildEntityClusters(decisions, ids, config);
      return automatic;
    }
    var humanEdges := SortedPairs(MatchPairs(outcome.value));
    var noMatches := NoMatchPairs(outcome.value);
    var unionFind := new UnionFind.HalvingUnionFind(ids);
    var autoEdges := JoinAutoEdges(unionFind, AutoEdges(decisions), noMatches, config);
    JoinInOrder(unionFind, humanEdges, noMatches, {});
    UnionFind.RepresentedIsCanonical(unionFind.parent, unionFind.classes);
    var roots := unionFind.Roots();
    var components := GroupByRoot(roots);
    clusters := ListReviewClusters(components, autoEdges, humanEdges, config);
  }

  /** The AUTO_MATCH loop: NO_MATCH pairs first, then the conflict guard. */
  method JoinAutoEdges(unionFind: UnionFind.HalvingUnionFind, edges: seq<Pair>, noMatches: set<Pair>, config: Config)
    returns (accepted: seq<Pair>)
    requires unionFind.Valid() && Known(edges, unionFind.classes.Keys)
    modifies unionFind
    ensures unionFind.Valid()
    ensures var pass := Greedy(old(unionFind.classes), edges, noMatches + Guarded(config), {});
            unionFind.classes == pass.part && accepted == Chosen(edges, pass.taken)
  {
    ghost var start, forbidden := unionFind.classes, noMatches + Guarded(config);
    ghost var pass := Pass(start, []);
    accepted := [];
    var n := 0;
    while n < |edges|
      invariant n <= |edges| && unionFind.Valid() && unionFind.classes == pass.part
      invariant JoinedSoFar(start, edges[..n], forbidden, pass, accepted)
    {
      pass := JoinStep(start, edges, forbidden, n, pass, accepted);
      var accept := JoinUnlessGuarded(unionFind, edges[n], noMatches, config);
      if accept {
        accepted := accepted + [edges[n]];
      }
      n := n + 1;
    }
    assert edges[..n] == edges;
  }

  method JoinUnlessGuarded(unionFind: UnionFind.HalvingUnionFind, edge: Pair, noMatches: set<Pair>, config: Config)
    returns (accept: bool)
    requires unionFind.Valid() && Inside(edge, unionFind.classes.Keys)
    modifies unionFind
    ensures unionFind.Valid()
    ensures accept <==> !Refused(old(unionFind.classes), edge, noMatches + Guarded(config), {})
    ensures unionFind.classes == if accept then Merge(old(unionFind.classes), edge) else old(unionFind.classes)
  {
    var proposed := unionFind.ComponentMembers(edge);
    BlockedByEither(proposed, noMatches, Guarded(config));
    var blocks := NoMatchBlocksMerge(proposed, proposed, noMatches);
    assert proposed + proposed == proposed;
    if blocks {
      return false;
    }
    var guarded := GuardTrips(proposed, config);
    if guarded {
      return false;
    }
    unionFind.Union(edge);
    accept := true;
  }

  lemma BlockedByEither(ids: set<RecordId>, first: set<Pair>, second: set<Pair>)
    ensures Blocked(ids, first + second) <==> Blocked(ids, first) || Blocked(ids, second)
  {
    BlockedIsMonotone(ids, ids, first, first + second);
    BlockedIsMonotone(ids, ids, second, first + second);
  }

  lemma CountOneMore(clusters: seq<EntityCluster>, c: EntityCluster)
    ensures AutoCount(clusters + [c]) == AutoCount(clusters) + if c.id.AutoCluster? then 1 else 0
  {
    assert (clusters + [c])[..|clusters|] == clusters;
  }

  /** One component: the cluster it becomes, with the two running counters. */
  method ReviewClusterOf(
    ghost front: seq<EntityCluster>, members: seq<RecordId>, auto: seq<Pair>, human: seq<Pair>, config: Config,
    autoIndex: nat, humanIndex: nat)
    returns (next: Option<EntityCluster>)
    requires AscendingIds(members) && autoIndex == AutoCount(front) && humanIndex == |front| - AutoCount(front)
    ensures next == NextCluster(front, members, auto, human, config.severe)
  {
    if |members| < 2 {
      return None;
    }
    var autoEdges, humanEdges := Within(auto, IdSet(members)), Within(human, IdSet(members));
    var id;
    if autoEdges != [] {
      id := AutoCluster(autoIndex + 1);
    } else if humanEdges != [] {
      id := HumanCluster(humanIndex + 1);
    } else {
      return None;
    }
    var conflict := HasSevereInternalConflict(members, config);
    next := Some(EntityCluster(id, members, autoEdges, conflict));
  }

  method ListReviewClusters(components: seq<seq<RecordId>>, auto: seq<Pair>, human: seq<Pair>, config: Config)
    returns (clusters: seq<EntityCluster>)
    requires forall k :: 0 <= k < |components| ==> AscendingIds(components[k])
    ensures clusters == ReviewClusters(components, auto, human, config.severe)
  {
    clusters := [];
    var autoIndex, humanIndex := 0, 0;
    var k := 0;
    while k < |components|
      invariant k <= |components|
      invariant clusters == ReviewClusters(components[..k], auto, human, config.severe)
      invariant autoIndex == AutoCount(clusters) && humanIndex == |clusters| - AutoCount(clusters)
    {
      var next := ReviewClusterOf(clusters, components[k], auto, human, config, autoIndex, humanIndex);
      assert components[..k + 1][..k] == components[..k];
      if next.Some? {
        CountOneMore(clusters, next.value);
        if next.value.id.AutoCluster? {
          autoIndex := autoIndex + 1;
        } else {
          humanIndex := humanIndex + 1;
        }
        clusters := clusters + [next.value];
      }
      k := k + 1;
    }
    assert components[..k] == components;
  }

  // ---- what the final clusters promise -------------------------------------------------------------------------

  /** For any outcome, even a contradictory one: no component holds both records of a NO_MATCH; a recorded
      MATCH pair ends in one component exactly when its edge was not skipped; a skipped MATCH's two
      components would together hold a NO_MATCH pair; and an AUTO_MATCH edge was accepted only into the
      component it ends in, and refused only for a NO_MATCH or guarded severe pair of its two components. */
  lemma ReviewAwarePassIsMaximal(
    ids: set<RecordId>, auto: seq<Pair>, matches: set<Pair>, noMatches: set<Pair>, config: Config)
    requires Grounded(ids, auto, matches)
    ensures var first, last := AutoPass(ids, auto, noMatches, config), HumanPass(ids, auto, matches, noMatches, config);
            var human := SortedPairs(matches);
            && Safe(last.part, noMatches)
            && (forall i :: 0 <= i < |human| ==> (last.taken[i] <==> Same(last.part, human[i].a, human[i].b)))
            && (forall i :: 0 <= i < |human| && !last.taken[i] ==> Blocked(Proposed(last.part, human[i]), noMatches))
            && (forall i :: 0 <= i < |auto| && first.taken[i] ==> Same(last.part, auto[i].a, auto[i].b))
            && (forall i :: 0 <= i < |auto| && !first.taken[i] ==>
                  Blocked(Proposed(last.part, auto[i]), noMatches + Guarded(config)))
  {
    var first, last := AutoPass(ids, auto, noMatches, config), HumanPass(ids, auto, matches, noMatches, config);
    var human, forbidden := SortedPairs(matches), noMatches + Guarded(config);
    AutoPassIsSafe(ids, auto, noMatches, config);
    GreedyIsSafe(first.part, human, noMatches);
    forall i | 0 <= i < |human|
      ensures last.taken[i] <==> Same(last.part, human[i].a, human[i].b)
      ensures !last.taken[i] ==> Blocked(Proposed(last.part, human[i]), noMatches)
    {
      TakenIffJoined(first.part, human, noMatches, i);
      if !last.taken[i] {
        RefusedForGoodReason(first.part, human, noMatches, {}, i);
      }
    }
    HumanPassGrows(ids, auto, matches, noMatches, config);
    forall i | 0 <= i < |auto|
      ensures first.taken[i] ==> Same(last.part, auto[i].a, auto[i].b)
      ensures !first.taken[i] ==> Blocked(Proposed(last.part, auto[i]), forbidden)
    {
      DecidedAt(Discrete(ids), auto, forbidden, {}, i);
      ProposedGrows(first.part, last.part, auto[i]);
      if !first.taken[i] {
        RefusedForGoodReason(Discrete(ids), auto, forbidden, {}, i);
        BlockedIsMonotone(Proposed(first.part, auto[i]), Proposed(last.part, auto[i]), forbidden, forbidden);
      }
    }
  }

  lemma AutoPassIsSafe(ids: set<RecordId>, auto: seq<Pair>, noMatches: set<Pair>, config: Config)
    requires Known(auto, ids)
    ensures Safe(AutoPass(ids, auto, noMatches, config).part, noMatches)
    ensures Safe(AutoPass(ids, auto, noMatches, config).part, Guarded(config))
  {
    GreedyIsSafe(Discrete(ids), auto, noMatches + Guarded(config));
    assert forall f :: f in noMatches || f in Guarded(config) ==> f in noMatches + Guarded(config);
  }

  lemma HumanPassGrows(ids: set<RecordId>, auto: seq<Pair>, matches: set<Pair>, noMatches: set<Pair>, config: Config)
    requires Grounded(ids, auto, matches)
    ensures Coarser(AutoPass(ids, auto, noMatches, config).part, HumanPass(ids, auto, matches, noMatches, config).part)
  {
    var human := SortedPairs(matches);
    GreedyGrows(AutoPass(ids, auto, noMatches, config).part, human, noMatches, {}, 0);
    assert human[..0] == [];
  }

  lemma HumanPassIsCanonical(
    ids: set<RecordId>, auto: seq<Pair>, matches: set<Pair>, noMatches: set<Pair>, config: Config)
    requires Grounded(ids, auto, matches)
    ensures Canonical(HumanPass(ids, auto, matches, noMatches, config).part)
  {
    GreedyIsCanonical(Discrete(ids), auto, noMatches + Guarded(config), {});
    GreedyIsCanonical(AutoPass(ids, auto, noMatches, config).part, SortedPairs(matches), noMatches, {});
  }

  // ---- the listing drops no component ------------------------------------------------------------------------

  lemma {:induction false} ReviewClusterComesFrom(
    components: seq<seq<RecordId>>, auto: seq<Pair>, human: seq<Pair>, severe: set<Pair>, c: EntityCluster)
    requires c in ReviewClusters(components, auto, human, severe)
    ensures c.members in components && |c.members| >= 2
    ensures c.autoMatchEdges == Within(auto, IdSet(c.members))
    ensures c.id.AutoCluster? <==> c.autoMatchEdges != []
    ensures c.hasInternalConflict <==> Blocked(IdSet(c.members), severe)
    decreases |components|
  {
    var front := components[..|components| - 1];
    if c in ReviewClusters(front, auto, human, severe) {
      ReviewClusterComesFrom(front, auto, human, severe, c);
    }
  }

  lemma {:induction false} ComponentBecomesReviewCluster(
    components: seq<seq<RecordId>>, auto: seq<Pair>, human: seq<Pair>, severe: set<Pair>, members: seq<RecordId>)
    requires members in components && |members| >= 2
    requires Within(auto, IdSet(members)) != [] || Within(human, IdSet(members)) != []
    ensures exists c :: c in ReviewClusters(components, auto, human, severe) && c.members == members
    decreases |components|
  {
    var front, all := components[..|components| - 1], ReviewClusters(components, auto, human, severe);
    if members in front {
      ComponentBecomesReviewCluster(front, auto, human, severe, members);
      var c :| c in ReviewClusters(front, auto, human, severe) && c.members == members;
      assert c in all;
    } else {
      assert all[|all| - 1].members == members && all[|all| - 1] in all;
    }
  }

  /** Every component of two or more records was joined along an accepted AUTO_MATCH or a human edge. */
  lemma LargeComponentHoldsAnEdge(
    ids: set<RecordId>, auto: seq<Pair>, matches: set<Pair>, noMatches: set<Pair>, config: Config,
    x: RecordId, y: RecordId)
    requires Grounded(ids, auto, matches) && x != y
    requires Same(HumanPass(ids, auto, matches, noMatches, config).part, x, y)
    ensures var component := Component(HumanPass(ids, auto, matches, noMatches, config).part, x);
            Within(Chosen(auto, AutoPass(ids, auto, noMatches, config).taken), component) != []
            || Within(SortedPairs(matches), component) != []
  {
    var first, last := AutoPass(ids, auto, noMatches, config), HumanPass(ids, auto, matches, noMatches, config);
    var human := SortedPairs(matches);
    var autoJoined, humanJoined := Chosen(auto, first.taken), Chosen(human, last.taken);
    GreedyMergesChosen(Discrete(ids), auto, noMatches + Guarded(config), {});
    GreedyMergesChosen(first.part, human, noMatches, {});
    MergeAllAppends(Discrete(ids), autoJoined, humanJoined);
    BigClassHoldsAnEdge(ids, autoJoined + humanJoined, x, y);
    var e :| e in autoJoined + humanJoined && Inside(e, Component(last.part, x));
    ChosenMembers(human, last.taken, e);
    assert e in Within(autoJoined, Component(last.part, x)) || e in Within(human, Component(last.part, x));
  }

  /** Every component of two or more records is listed, whole: the branch that would drop one is never taken. */
  lemma EveryLargeComponentIsListed(
    ids: set<RecordId>, auto: seq<Pair>, matches: set<Pair>, noMatches: set<Pair>, config: Config,
    x: RecordId, y: RecordId) returns (c: EntityCluster)
    requires Grounded(ids, auto, matches) && x != y
    requires Same(HumanPass(ids, auto, matches, noMatches, config).part, x, y)
    ensures var part := HumanPass(ids, auto, matches, noMatches, config).part;
            && c in FinalClusters(ids, auto, matches, noMatches, config)
            && c.members == SortedIds(Component(part, x))
            && (c.hasInternalConflict <==> Blocked(Component(part, x), config.severe))
  {
    var part := HumanPass(ids, auto, matches, noMatches, config).part;
    var chosen := Chosen(auto, AutoPass(ids, auto, noMatches, config).taken);
    var members := SortedIds(Component(part, x));
    HumanPassIsCanonical(ids, auto, matches, noMatches, config);
    ComponentIsListed(part, x);
    LargeComponentHoldsAnEdge(ids, auto, matches, noMatches, config, x, y);
    assert IdSet(members) == Component(part, x);
    TwoMembersOrMore(Component(part, x), if x < y then RecordPair(x, y) else RecordPair(y, x));
    ComponentBecomesReviewCluster(ComponentList(part), chosen, SortedPairs(matches), config.severe, members);
    c :| c in ReviewClusters(ComponentList(part), chosen, SortedPairs(matches), config.severe) && c.members == members;
    ReviewClusterComesFrom(ComponentList(part), chosen, SortedPairs(matches), config.severe, c);
  }

  // ---- agreement with the authorization boundary -----------------------------------------------------------------

  /** The guard refuses no AUTO_MATCH edge that a NO_MATCH pair does not refuse anyway. */
  ghost predicate GuardIsIdle(ids: set<RecordId>, auto: seq<Pair>, noMatches: set<Pair>, config: Config)
    requires Known(auto, ids)
  {
    ExtraIsIdle(Discrete(ids), auto, noMatches, Guarded(config))
  }

  lemma GuardOffIsIdle(ids: set<RecordId>, auto: seq<Pair>, noMatches: set<Pair>, config: Config)
    requires Known(auto, ids) && !config.clusterConflictGuard
    ensures GuardIsIdle(ids, auto, noMatches, config)
  {
    assert noMatches + Guarded(config) == noMatches;
    forall i | 0 <= i < |auto| && !Greedy(Discrete(ids), auto, noMatches + Guarded(config), {}).taken[i]
      ensures Blocked(Proposed(Greedy(Discrete(ids), auto[..i], noMatches + Guarded(config), {}).part, auto[i]), noMatches)
    {
      DecidedAt(Discrete(ids), auto, noMatches, {}, i);
    }
  }

  /** The guarded and the unguarded AUTO_MATCH pass build the same components exactly when the guard is idle. */
  lemma AutoPassesAgreeExactlyWhenIdle(ids: set<RecordId>, auto: seq<Pair>, noMatches: set<Pair>, config: Config)
    requires Known(auto, ids)
    ensures GuardIsIdle(ids, auto, noMatches, config)
            <==> AutoPass(ids, auto, noMatches, config).part == Greedy(Discrete(ids), auto, noMatches, {}).part
  {
    IdleExactlyWhenPartitionsAgree(Discrete(ids), auto, noMatches, Guarded(config));
  }

  /** Two separately written greedy passes agree while the guard is idle. */
  lemma PassesAgree(ids: set<RecordId>, auto: seq<Pair>, matches: set<Pair>, noMatches: set<Pair>, config: Config)
    requires Grounded(ids, auto, matches) && GuardIsIdle(ids, auto, noMatches, config)
    ensures HumanPass(ids, auto, matches, noMatches, config).part == Projection(ids, auto, matches, noMatches, {})
  {
    IdleExtraCanBeDropped(Discrete(ids), auto, noMatches, Guarded(config));
  }

  /** They agree on every set of recorded MATCH pairs exactly when the guard is idle. */
  lemma PassesAgreeExactlyWhenIdle(ids: set<RecordId>, auto: seq<Pair>, noMatches: set<Pair>, config: Config)
    requires Known(auto, ids)
    ensures GuardIsIdle(ids, auto, noMatches, config) <==>
            forall matches :: Grounded(ids, auto, matches) ==>
              HumanPass(ids, auto, matches, noMatches, config).part == Projection(ids, auto, matches, noMatches, {})
  {
    if GuardIsIdle(ids, auto, noMatches, config) {
      forall matches | Grounded(ids, auto, matches)
        ensures HumanPass(ids, auto, matches, noMatches, config).part == Projection(ids, auto, matches, noMatches, {})
      {
        PassesAgree(ids, auto, matches, noMatches, config);
      }
    } else {
      assert Grounded(ids, auto, {});
      assert HumanPass(ids, auto, {}, noMatches, config).part == AutoPass(ids, auto, noMatches, config).part;
      assert Projection(ids, auto, {}, noMatches, {}) == Greedy(Discrete(ids), auto, noMatches, {}).part;
      AutoPassesAgreeExactlyWhenIdle(ids, auto, noMatches, config);
    }
  }

  /** After an authorized MATCH is recorded, and while the guard is idle, the cluster built for it is
      exactly the component the boundary projected: unflagged, and free of NO_MATCH pairs. */
  lemma AuthorizedMatchBuildsItsProjection(
    pair: Pair, ids: set<RecordId>, auto: seq<Pair>, config: Config,
    before: seq<ReviewCase>, after: seq<ReviewCase>) returns (c: EntityCluster)
    requires BoundaryVerdict(pair, ids, auto, config.severe, before, {}, {}).Authorized?
    requires MatchPairs(after) == MatchPairs(before) + {pair} && NoMatchPairs(after) == NoMatchPairs(before)
    requires GuardIsIdle(ids, auto, NoMatchPairs(before), config)
    ensures var noMatches := NoMatchPairs(after);
            var projected := Component(
              Projection(ids, auto, MatchPairs(before) + {pair}, NoMatchPairs(before), {pair}), pair.a);
            && c in FinalClusters(ids, auto, MatchPairs(after), noMatches, config)
            && IdSet(c.members) == projected && Inside(pair, projected)
            && !c.hasInternalConflict && !Blocked(projected, noMatches)
  {
    var matches, noMatches := MatchPairs(after), NoMatchPairs(after);
    AuthorizedExactlyWhenCleanUnforced(pair, ids, auto, config.severe, before, {}, {});
    assert EffectiveNoMatches(before, {}) == noMatches;
    PassesAgree(ids, auto, matches, noMatches, config);
    c := EveryLargeComponentIsListed(ids, auto, matches, noMatches, config, pair.a, pair.b);
    assert IdSet(c.members) == Component(Projection(ids, auto, matches, noMatches, {}), pair.a);
  }

  // ---- when a final cluster is flagged --------------------------------------------------------------------------

  /** Human edge `i` was joined into the component of `x` although its two components, at its turn, together held
      a severe pair: the question the human loop does not ask. */
  ghost predicate HumanEdgeCrossesConflict(
    ids: set<RecordId>, auto: seq<Pair>, matches: set<Pair>, noMatches: set<Pair>, config: Config, x: RecordId, i: int)
    requires Grounded(ids, auto, matches)
  {
    BringsTogether(AutoPass(ids, auto, noMatches, config).part, SortedPairs(matches), noMatches, config.severe, x, i)
  }

  /** With the guard on, a final component holds a severe pair exactly when a human edge crossed a conflict on the
      way into it. */
  lemma ConflictedExactlyWhenAHumanEdgeCrosses(
    ids: set<RecordId>, auto: seq<Pair>, matches: set<Pair>, noMatches: set<Pair>, config: Config, x: RecordId)
    requires Grounded(ids, auto, matches) && config.clusterConflictGuard && x in ids
    ensures Blocked(Component(HumanPass(ids, auto, matches, noMatches, config).part, x), config.severe)
            <==> exists i :: HumanEdgeCrossesConflict(ids, auto, matches, noMatches, config, x, i)
  {
    var start, edges := AutoPass(ids, auto, noMatches, config).part, SortedPairs(matches);
    AutoPassIsSafe(ids, auto, noMatches, config);
    HoldsExactlyWhenBroughtTogether(start, edges, noMatches, config.severe, x);
    if StartsTogether(start, edges, noMatches, config.severe, x) {
      NeverStartsTogether(start, edges, noMatches, config.severe, x);
    }
    assert forall i :: HumanEdgeCrossesConflict(ids, auto, matches, noMatches, config, x, i)
                       <==> BringsTogether(start, edges, noMatches, config.severe, x, i);
  }

  lemma NeverStartsTogether(
    start: Partition, edges: seq<Pair>, forbidden: set<Pair>, other: set<Pair>, x: RecordId)
    requires Known(edges, start.Keys) && Safe(start, other)
    ensures !StartsTogether(start, edges, forbidden, other, x)
  {
    forall y | y in start
      ensures !Blocked(Component(start, y), other)
    {
      SafeIsUnblocked(start, other, y);
    }
  }

  /** Without the guard, it may also have come together along AUTO_MATCH edges. */
  lemma ConflictedWithoutTheGuard(
    ids: set<RecordId>, auto: seq<Pair>, matches: set<Pair>, noMatches: set<Pair>, config: Config, x: RecordId)
    requires Grounded(ids, auto, matches) && x in ids
    ensures Blocked(Component(HumanPass(ids, auto, matches, noMatches, config).part, x), config.severe)
            <==> EverTogether(AutoPass(ids, auto, noMatches, config).part, SortedPairs(matches), noMatches, config.severe, x)
  {
    HoldsExactlyWhenBroughtTogether(
      AutoPass(ids, auto, noMatches, config).part, SortedPairs(matches), noMatches, config.severe, x);
  }

  /** Each listed cluster is a whole component, and with the guard on it is flagged exactly when a human edge
      crossed a conflict on the way into it. */
  lemma FlaggedExactlyWhenAHumanEdgeCrosses(
    ids: set<RecordId>, auto: seq<Pair>, matches: set<Pair>, noMatches: set<Pair>, config: Config, c: EntityCluster)
    returns (x: RecordId)
    requires Grounded(ids, auto, matches) && config.clusterConflictGuard
    requires c in FinalClusters(ids, auto, matches, noMatches, config)
    ensures x in ids && c.members == SortedIds(Component(HumanPass(ids, auto, matches, noMatches, config).part, x))
    ensures c.hasInternalConflict <==> exists i :: HumanEdgeCrossesConflict(ids, auto, matches, noMatches, config, x, i)
  {
    var part := HumanPass(ids, auto, matches, noMatches, config).part;
    var chosen := Chosen(auto, AutoPass(ids, auto, noMatches, config).taken);
    HumanPassIsCanonical(ids, auto, matches, noMatches, config);
    ReviewClusterComesFrom(ComponentList(part), chosen, SortedPairs(matches), config.severe, c);
    var k :| 0 <= k < |ComponentList(part)| && ComponentList(part)[k] == c.members;
    ListedIsComponent(part, k);
    x :| x in part && c.members == SortedIds(Component(part, x));
    MembersOfSorted(c.members, Component(part, x));
    ConflictedExactlyWhenAHumanEdgeCrosses(ids, auto, matches, noMatches, config, x);
  }

  /** No NO_MATCH pair lay in the two components of a recorded pair when its turn came. */
  ghost predicate JoinsAtItsTurn(
    ids: set<RecordId>, auto: seq<Pair>, matches: set<Pair>, noMatches: set<Pair>, config: Config, pair: Pair)
    requires Grounded(ids, auto, matches) && pair in matches
  {
    var start, edges := AutoPass(ids, auto, noMatches, config).part, SortedPairs(matches);
    exists i :: 0 <= i < |edges| && edges[i] == pair &&
      !Blocked(Proposed(Greedy(start, edges[..i], noMatches, {}).part, edges[i]), noMatches)
  }

  /** The final cluster of an authorized MATCH when the guard is on, busy or not: the pair ends in one cluster
      exactly when no NO_MATCH pair lay in its two components at its turn; and that cluster is then flagged
      exactly when a human edge crossed a conflict on the way into it. */
  lemma AuthorizedMatchIsFlaggedExactlyWhen(
    pair: Pair, ids: set<RecordId>, auto: seq<Pair>, config: Config,
    before: seq<ReviewCase>, after: seq<ReviewCase>) returns (c: Option<EntityCluster>)
    requires BoundaryVerdict(pair, ids, auto, config.severe, before, {}, {}).Authorized?
    requires MatchPairs(after) == MatchPairs(before) + {pair} && NoMatchPairs(after) == NoMatchPairs(before)
    requires config.clusterConflictGuard
    ensures c.Some? <==> JoinsAtItsTurn(ids, auto, MatchPairs(after), NoMatchPairs(after), config, pair)
    ensures c.Some? <==> Same(HumanPass(ids, auto, MatchPairs(after), NoMatchPairs(after), config).part, pair.a, pair.b)
    ensures c.Some? ==>
              && c.value in FinalClusters(ids, auto, MatchPairs(after), NoMatchPairs(after), config)
              && Inside(pair, IdSet(c.value.members))
              && (c.value.hasInternalConflict <==> exists i ::
                    HumanEdgeCrossesConflict(ids, auto, MatchPairs(after), NoMatchPairs(after), config, pair.a, i))
  {
    var matches, noMatches := MatchPairs(after), NoMatchPairs(after);
    JoinedExactlyWhenJoinsAtItsTurn(ids, auto, matches, noMatches, config, pair);
    if Same(HumanPass(ids, auto, matches, noMatches, config).part, pair.a, pair.b) {
      var listed := EveryLargeComponentIsListed(ids, auto, matches, noMatches, config, pair.a, pair.b);
      ConflictedExactlyWhenAHumanEdgeCrosses(ids, auto, matches, noMatches, config, pair.a);
      MembersOfSorted(listed.members, Component(HumanPass(ids, auto, matches, noMatches, config).part, pair.a));
      return Some(listed);
    }
    return None;
  }

  lemma JoinedExactlyWhenJoinsAtItsTurn(
    ids: set<RecordId>, auto: seq<Pair>, matches: set<Pair>, noMatches: set<Pair>, config: Config, pair: Pair)
    requires Grounded(ids, auto, matches) && pair in matches
    ensures Same(HumanPass(ids, auto, matches, noMatches, config).part, pair.a, pair.b)
            <==> JoinsAtItsTurn(ids, auto, matches, noMatches, config, pair)
  {
    var start, edges := AutoPass(ids, auto, noMatches, config).part, SortedPairs(matches);
    AutoPassIsSafe(ids, auto, noMatches, config);
    assert pair in edges;
    forall i | 0 <= i < |edges| && edges[i] == pair
      ensures Same(HumanPass(ids, auto, matches, noMatches, config).part, pair.a, pair.b) <==>
              !Blocked(Proposed(Greedy(start, edges[..i], noMatches, {}).part, edges[i]), noMatches)
    {
      TakenIffJoined(start, edges, noMatches, i);
      DecidedAt(start, edges, noMatches, {}, i);
    }
  }
}
