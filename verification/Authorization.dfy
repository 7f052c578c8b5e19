/** The authorization boundary: which component would a human MATCH build, and is it clean? */
module Authorization {
  import opened Records
  import opened Partitions
  import opened GreedyPass
  import opened Resolution
  import opened Review
  import opened Constraints
  import Clustering
  import UnionFind

  /** `MissingRecord` stands for the key error of a pass that meets a record the record map does not hold. */
  datatype Verdict = Authorized | Contradiction | MissingRecord | SevereConflict

  /** Every pair the passes join is between known records. */
  predicate Grounded(ids: set<RecordId>, auto: seq<Pair>, matches: set<Pair>) {
    Known(auto, ids) && forall p :: p in matches ==> Inside(p, ids)
  }

  /** The AUTO_MATCH edges in decision order, then the MATCH pairs in pair order, each skipped when it
      would close over a NO_MATCH pair unless it is forced. */
  function Projection(
    ids: set<RecordId>, auto: seq<Pair>, matches: set<Pair>, noMatches: set<Pair>, forced: set<Pair>): (p: Partition)
    requires Grounded(ids, auto, matches)
    ensures p.Keys == ids
  {
    Greedy(Greedy(Discrete(ids), auto, noMatches, {}).part, SortedPairs(matches), noMatches, forced).part
  }

  /** The pair handed in besides the outcome's own, as a set of at most one. */
  datatype Addition = NoAddition | Added(pair: Pair, force: bool) {
    function Pairs(): set<Pair> {
      if Added? then {pair} else {}
    }

    function Forced(): set<Pair> {
      if Added? && force then {pair} else {}
    }
  }

  /** One greedy loop over a shared parent map. */
  method JoinInOrder(
    unionFind: UnionFind.HalvingUnionFind, edges: seq<Pair>, noMatches: set<Pair>, forced: set<Pair>)
    requires unionFind.Valid() && Known(edges, unionFind.classes.Keys)
    modifies unionFind
    ensures unionFind.Valid()
    ensures unionFind.classes == Greedy(old(unionFind.classes), edges, noMatches, forced).part
  {
    ghost var start := unionFind.classes;
    var n := 0;
    while n < |edges|
      invariant n <= |edges| && unionFind.Valid()
      invariant IsGreedy(unionFind.classes, start, edges[..n], noMatches, forced)
    {
      GreedyOneMore(unionFind.classes, start, edges, n, noMatches, forced);
      JoinUnlessRefused(unionFind, edges[n], noMatches, forced);
      n := n + 1;
    }
    assert edges[..n] == edges;
  }

  ghost predicate IsGreedy(
    now: Partition, start: Partition, edges: seq<Pair>, noMatches: set<Pair>, forced: set<Pair>)
    requires Known(edges, start.Keys)
  {
    now == Greedy(start, edges, noMatches, forced).part
  }

  lemma GreedyOneMore(
    now: Partition, start: Partition, edges: seq<Pair>, n: nat, noMatches: set<Pair>, forced: set<Pair>)
    requires Known(edges, start.Keys) && n < |edges| && IsGreedy(now, start, edges[..n], noMatches, forced)
    ensures Inside(edges[n], now.Keys)
    ensures IsGreedy(if Refused(now, edges[n], noMatches, forced) then now else Merge(now, edges[n]),
                     start, edges[..n + 1], noMatches, forced)
  {
    assert edges[..n + 1][..n] == edges[..n];
  }

  method JoinUnlessRefused(
    unionFind: UnionFind.HalvingUnionFind, edge: Pair, noMatches: set<Pair>, forced: set<Pair>)
    requires unionFind.Valid() && Inside(edge, unionFind.classes.Keys)
    modifies unionFind
    ensures unionFind.Valid()
    ensures unionFind.classes == if Refused(old(unionFind.classes), edge, noMatches, forced)
                                 then old(unionFind.classes) else Merge(old(unionFind.classes), edge)
  {
    var proposed := unionFind.ComponentMembers(edge);
    var blocks := NoMatchBlocksMerge(proposed, proposed, noMatches);
    assert proposed + proposed == proposed;
    if edge !in forced && blocks {
      return;
    }
    unionFind.Union(edge);
  }

  /** The connected component of `anchor` after the authorized edges, in ascending order. */
  method ProjectedComponent(
    anchor: Pair, cases: seq<ReviewCase>, decisions: seq<MatchDecision>, ids: set<RecordId>, addition: Addition)
    returns (members: seq<RecordId>)
    requires Grounded(ids, AutoEdges(decisions), MatchPairs(cases) + addition.Pairs()) && Inside(anchor, ids)
    ensures members == SortedIds(Component(
              Projection(ids, AutoEdges(decisions), MatchPairs(cases) + addition.Pairs(), NoMatchPairs(cases), addition.Forced()),
              anchor.a))
  {
    var unionFind := new UnionFind.HalvingUnionFind(ids);
    var noMatches := NoMatchPairs(cases);
    JoinInOrder(unionFind, AutoEdges(decisions), noMatches, {});
    JoinInOrder(unionFind, SortedPairs(MatchPairs(cases) + addition.Pairs()), noMatches, addition.Forced());
    var root := unionFind.Find(anchor.a);
    var roots := unionFind.Roots();
    UnionFind.UnderOneRoot(roots, anchor.a);
    members := SortedIds(UnionFind.Under(roots, {root}));
  }

  /** What the boundary decides, over the recorded pairs. The closure check comes before any record is looked
      up. */
  ghost function BoundaryVerdict(
    pair: Pair, ids: set<RecordId>, auto: seq<Pair>, severe: set<Pair>,
    cases: seq<ReviewCase>, existingMatches: set<Pair>, existingNoMatches: set<Pair>): Verdict
  {
    if Contradictory(EffectiveMatches(cases, existingMatches) + {pair}, EffectiveNoMatches(cases, existingNoMatches))
    then Contradiction
    else if !Grounded(ids, auto, MatchPairs(cases) + {pair}) then MissingRecord
    else
      var component :=
        Component(Projection(ids, auto, MatchPairs(cases) + {pair}, NoMatchPairs(cases), {pair}), pair.a);
      if Blocked(component, EffectiveNoMatches(cases, existingNoMatches)) then Contradiction
      else if Blocked(component, severe) then SevereConflict
      else Authorized
  }

  method AuthorizeHumanMatch(
    pair: Pair, cases: seq<ReviewCase>, decisions: seq<MatchDecision>, ids: set<RecordId>, config: Config,
    existingMatches: set<Pair>, existingNoMatches: set<Pair>) returns (verdict: Verdict)
    ensures verdict == BoundaryVerdict(
              pair, ids, AutoEdges(decisions), config.severe, cases, existingMatches, existingNoMatches)
  {
    var allowed := HumanMatchAllowed(pair, cases, existingMatches, existingNoMatches);
    if !allowed {
      return Contradiction;
    }
    if !Grounded(ids, AutoEdges(decisions), MatchPairs(cases) + {pair}) {
      return MissingRecord;
    }
    assert pair in MatchPairs(cases) + {pair};
    var projected := ProjectedComponent(pair, cases, decisions, ids, Added(pair, true));
    ghost var part := Projection(ids, AutoEdges(decisions), MatchPairs(cases) + {pair}, NoMatchPairs(cases), {pair});
    ForcedPairIsJoined(ids, AutoEdges(decisions), MatchPairs(cases) + {pair}, NoMatchPairs(cases), pair);
    TwoMembersOrMore(Component(part, pair.a), pair);
    if |projected| < 2 {
      return Authorized;
    }
    assert IdSet(projected) == Component(part, pair.a);
    var blocks := NoMatchBlocksMerge(
      IdSet(projected), IdSet(projected), EffectiveNoMatches(cases, existingNoMatches));
    assert IdSet(projected) + IdSet(projected) == IdSet(projected);
    if blocks {
      return Contradiction;
    }
    var conflict := Clustering.HasSevereInternalConflict(projected, config);
    verdict := if conflict then SevereConflict else Authorized;
  }

  lemma TwoMembersOrMore(ids: set<RecordId>, pair: Pair)
    requires Inside(pair, ids)
    ensures |SortedIds(ids)| >= 2
  {
    var s := SortedIds(ids);
    assert pair.a in s && pair.b in s;
    var i :| 0 <= i < |s| && s[i] == pair.a;
    var j :| 0 <= j < |s| && s[j] == pair.b;
  }

  lemma ForcedPairIsJoined(
    ids: set<RecordId>, auto: seq<Pair>, matches: set<Pair>, noMatches: set<Pair>, pair: Pair)
    requires Grounded(ids, auto, matches) && pair in matches
    ensures Same(Projection(ids, auto, matches, noMatches, {pair}), pair.a, pair.b)
  {
    var first := Greedy(Discrete(ids), auto, noMatches, {}).part;
    var edges := SortedPairs(matches);
    var i :| 0 <= i < |edges| && edges[i] == pair;
    DecidedAt(first, edges, noMatches, {pair}, i);
  }

  /** Without force no component holds both records of a NO_MATCH pair. */
  lemma UnforcedIsSafe(ids: set<RecordId>, auto: seq<Pair>, matches: set<Pair>, noMatches: set<Pair>)
    requires Grounded(ids, auto, matches)
    ensures Safe(Projection(ids, auto, matches, noMatches, {}), noMatches)
  {
    GreedyIsSafe(Discrete(ids), auto, noMatches);
    GreedyIsSafe(Greedy(Discrete(ids), auto, noMatches, {}).part, SortedPairs(matches), noMatches);
  }

  // ---- the forced edge was never really needed -----------------------------------------------------------------

  /** If the forced projection leaves the reviewed component free of NO_MATCH pairs, forcing changed nothing. */
  lemma CleanComponentNeedsNoForce(
    ids: set<RecordId>, auto: seq<Pair>, matches: set<Pair>, noMatches: set<Pair>, pair: Pair)
    requires Grounded(ids, auto, matches) && pair in matches
    requires !Blocked(Component(Projection(ids, auto, matches, noMatches, {pair}), pair.a), noMatches)
    ensures Projection(ids, auto, matches, noMatches, {pair}) == Projection(ids, auto, matches, noMatches, {})
  {
    ForceWasNotNeeded(Greedy(Discrete(ids), auto, noMatches, {}).part, SortedPairs(matches), noMatches, pair);
  }

  /** Conversely, an unforced projection that joins the pair is the forced one. */
  lemma JoinedUnforcedIsForced(
    ids: set<RecordId>, auto: seq<Pair>, matches: set<Pair>, noMatches: set<Pair>, pair: Pair)
    requires Grounded(ids, auto, matches) && pair in matches
    requires Same(Projection(ids, auto, matches, noMatches, {}), pair.a, pair.b)
    ensures Projection(ids, auto, matches, noMatches, {pair}) == Projection(ids, auto, matches, noMatches, {})
  {
    var first := Greedy(Discrete(ids), auto, noMatches, {}).part;
    var edges := SortedPairs(matches);
    GreedyIsSafe(Discrete(ids), auto, noMatches);
    forall i | 0 <= i < |edges| && edges[i] == pair
      ensures Greedy(first, edges, noMatches, {}).taken[i]
    {
      TakenIffJoined(first, edges, noMatches, i);
    }
    TakenNeedsNoForce(first, edges, noMatches, pair);
  }

  lemma {:induction false} TakenNeedsNoForce(start: Partition, edges: seq<Pair>, forbidden: set<Pair>, e: Pair)
    requires Known(edges, start.Keys)
    requires forall i :: 0 <= i < |edges| && edges[i] == e ==> Greedy(start, edges, forbidden, {}).taken[i]
    ensures Greedy(start, edges, forbidden, {e}) == Greedy(start, edges, forbidden, {})
    decreases |edges|
  {
    if edges != [] {
      var n := |edges| - 1;
      GreedyGrows(start, edges, forbidden, {}, n);
      forall i | 0 <= i < n && edges[..n][i] == e
        ensures Greedy(start, edges[..n], forbidden, {}).taken[i]
      {
        assert edges[i] == e && Greedy(start, edges, forbidden, {}).taken[i];
      }
      TakenNeedsNoForce(start, edges[..n], forbidden, e);
      DecidedAt(start, edges, forbidden, {}, n);
    }
  }

  /** The projection without force joins the pair, in a component free of NO_MATCH pairs and of severe pairs. */
  ghost predicate CleanUnforced(
    pair: Pair, ids: set<RecordId>, auto: seq<Pair>, matches: set<Pair>, recorded: set<Pair>, noMatches: set<Pair>,
    severe: set<Pair>)
    requires Grounded(ids, auto, matches)
  {
    var unforced := Projection(ids, auto, matches, recorded, {});
    && Same(unforced, pair.a, pair.b)
    && !Blocked(Component(unforced, pair.a), noMatches)
    && !Blocked(Component(unforced, pair.a), severe)
  }

  /** The boundary accepts a MATCH exactly when the NO_MATCH closure allows it, every record is known, and the
      projection run without force, on the outcome with that MATCH recorded, puts both records in one component
      free of NO_MATCH pairs and of severe conflicts. */
  lemma AuthorizedExactlyWhenCleanUnforced(
    pair: Pair, ids: set<RecordId>, auto: seq<Pair>, severe: set<Pair>,
    cases: seq<ReviewCase>, existingMatches: set<Pair>, existingNoMatches: set<Pair>)
    ensures var matches, noMatches := MatchPairs(cases) + {pair}, EffectiveNoMatches(cases, existingNoMatches);
            BoundaryVerdict(pair, ids, auto, severe, cases, existingMatches, existingNoMatches).Authorized?
            <==> && !Contradictory(EffectiveMatches(cases, existingMatches) + {pair}, noMatches)
                 && Grounded(ids, auto, matches)
                 && CleanUnforced(pair, ids, auto, matches, NoMatchPairs(cases), noMatches, severe)
    ensures BoundaryVerdict(pair, ids, auto, severe, cases, existingMatches, existingNoMatches).Authorized? ==>
              Projection(ids, auto, MatchPairs(cases) + {pair}, NoMatchPairs(cases), {pair})
              == Projection(ids, auto, MatchPairs(cases) + {pair}, NoMatchPairs(cases), {})
  {
    if Grounded(ids, auto, MatchPairs(cases) + {pair}) {
      CleanForcedIsCleanUnforced(pair, ids, auto, MatchPairs(cases) + {pair}, NoMatchPairs(cases),
        EffectiveNoMatches(cases, existingNoMatches), severe);
    }
  }

  lemma CleanForcedIsCleanUnforced(
    pair: Pair, ids: set<RecordId>, auto: seq<Pair>, matches: set<Pair>, recorded: set<Pair>, noMatches: set<Pair>,
    severe: set<Pair>)
    requires Grounded(ids, auto, matches) && pair in matches && recorded <= noMatches
    ensures var component := Component(Projection(ids, auto, matches, recorded, {pair}), pair.a);
            !Blocked(component, noMatches) && !Blocked(component, severe)
            <==> CleanUnforced(pair, ids, auto, matches, recorded, noMatches, severe)
    ensures CleanUnforced(pair, ids, auto, matches, recorded, noMatches, severe) ==>
              Projection(ids, auto, matches, recorded, {pair}) == Projection(ids, auto, matches, recorded, {})
  {
    var forced := Projection(ids, auto, matches, recorded, {pair});
    var unforced := Projection(ids, auto, matches, recorded, {});
    ForcedPairIsJoined(ids, auto, matches, recorded, pair);
    BlockedIsMonotone(Component(forced, pair.a), Component(forced, pair.a), recorded, noMatches);
    if !Blocked(Component(forced, pair.a), recorded) {
      CleanComponentNeedsNoForce(ids, auto, matches, recorded, pair);
    }
    if Same(unforced, pair.a, pair.b) {
      JoinedUnforcedIsForced(ids, auto, matches, recorded, pair);
    }
  }
}
