/** Every answer the authorization boundary can give, and exactly when it gives it. */
module Verdicts {
  import opened Records
  import opened Partitions
  import opened GreedyPass
  import opened Resolution
  import opened Review
  import opened Constraints
  import opened Authorization
  import Clustering

  // ---- projections and paths -----------------------------------------------------------------------------------

  /** A projection joins only records that some path of AUTO_MATCH edges and MATCH pairs connects, forced or not. */
  lemma ProjectionFollowsPaths(
    ids: set<RecordId>, auto: seq<Pair>, matches: set<Pair>, noMatches: set<Pair>, forced: set<Pair>)
    requires Grounded(ids, auto, matches)
    ensures JoinsOnlyConnected(Projection(ids, auto, matches, noMatches, forced), EdgeSet(auto) + matches)
  {
    var first := Greedy(Discrete(ids), auto, noMatches, {});
    var human := SortedPairs(matches);
    var last := Greedy(first.part, human, noMatches, forced);
    var autoJoined, humanJoined := Chosen(auto, first.taken), Chosen(human, last.taken);
    GreedyMergesChosen(Discrete(ids), auto, noMatches, {});
    GreedyMergesChosen(first.part, human, noMatches, forced);
    MergeAllAppends(Discrete(ids), autoJoined, humanJoined);
    forall e | e in EdgeSet(autoJoined + humanJoined)
      ensures e in EdgeSet(auto) + matches
    {
      ChosenMembers(auto, first.taken, e);
      ChosenMembers(human, last.taken, e);
      assert e in autoJoined || e in humanJoined;
    }
    MergeAllJoinsOnlyConnected(ids, autoJoined + humanJoined, EdgeSet(auto) + matches);
  }

  /** The records of one component are connected to each other. */
  lemma ComponentFollowsPaths(
    ids: set<RecordId>, auto: seq<Pair>, matches: set<Pair>, noMatches: set<Pair>, forced: set<Pair>,
    x: RecordId, f: Pair)
    requires Grounded(ids, auto, matches) && x in ids
    requires Inside(f, Component(Projection(ids, auto, matches, noMatches, forced), x))
    ensures Connected(EdgeSet(auto) + matches, x, f.a) && Connected(EdgeSet(auto) + matches, x, f.b)
    ensures Connected(EdgeSet(auto) + matches, f.a, f.b)
  {
    var part := Projection(ids, auto, matches, noMatches, forced);
    ProjectionFollowsPaths(ids, auto, matches, noMatches, forced);
    assert Same(part, x, f.a) && Same(part, x, f.b) && Same(part, f.a, f.b);
  }

  /** With nothing forbidden a projection joins exactly what those paths connect. */
  lemma UnopposedProjectionIsReachability(
    ids: set<RecordId>, auto: seq<Pair>, matches: set<Pair>, forced: set<Pair>, x: RecordId, y: RecordId)
    requires Grounded(ids, auto, matches) && x in ids
    ensures Same(Projection(ids, auto, matches, {}, forced), x, y) <==> Connected(EdgeSet(auto) + matches, x, y)
  {
    var human := SortedPairs(matches);
    var first := Greedy(Discrete(ids), auto, {}, {});
    UnopposedPassMergesAll(Discrete(ids), auto, {});
    UnopposedPassMergesAll(first.part, human, forced);
    MergeAllAppends(Discrete(ids), auto, human);
    MergeAllIsReachability(ids, auto + human, x, y);
    assert EdgeSet(auto + human) == EdgeSet(auto) + matches;
  }

  lemma UnopposedPassMergesAll(start: Partition, edges: seq<Pair>, forced: set<Pair>)
    requires Known(edges, start.Keys)
    ensures Greedy(start, edges, {}, forced).part == MergeAll(start, edges)
  {
    var pass := Greedy(start, edges, {}, forced);
    forall i | 0 <= i < |edges|
      ensures pass.taken[i]
    {
      DecidedAt(start, edges, {}, forced, i);
    }
    GreedyMergesChosen(start, edges, {}, forced);
    Clustering.AllChosen(edges, pass.taken);
  }

  // ---- the four answers ---------------------------------------------------------------------------------------------

  /** The NO_MATCH closure lets the pair be recorded. */
  ghost predicate ClosureAllows(
    pair: Pair, cases: seq<ReviewCase>, existingMatches: set<Pair>, existingNoMatches: set<Pair>)
  {
    !Contradictory(EffectiveMatches(cases, existingMatches) + {pair}, EffectiveNoMatches(cases, existingNoMatches))
  }

  /** The projection run without force joins the pair, in a component free of NO_MATCH pairs. */
  ghost predicate JoinsCleanly(
    pair: Pair, ids: set<RecordId>, auto: seq<Pair>, matches: set<Pair>, recorded: set<Pair>, noMatches: set<Pair>)
    requires Grounded(ids, auto, matches)
  {
    CleanUnforced(pair, ids, auto, matches, recorded, noMatches, {})
  }

  /** In the projection run without force, a severe pair lies in the component of `pair`. */
  ghost predicate MeetsSevere(
    pair: Pair, ids: set<RecordId>, auto: seq<Pair>, matches: set<Pair>, recorded: set<Pair>, severe: set<Pair>)
    requires Grounded(ids, auto, matches) && pair in matches
  {
    Blocked(Component(Projection(ids, auto, matches, recorded, {}), pair.a), severe)
  }

  /** What the forced component holds says the same: a NO_MATCH pair in it, alone or beside a severe pair, is a
      contradiction; a severe pair alone a severe conflict. */
  lemma ForcedComponentDecides(
    pair: Pair, ids: set<RecordId>, auto: seq<Pair>, matches: set<Pair>, recorded: set<Pair>, noMatches: set<Pair>,
    severe: set<Pair>)
    requires Grounded(ids, auto, matches) && pair in matches && recorded <= noMatches
    ensures var component := Component(Projection(ids, auto, matches, recorded, {pair}), pair.a);
            && (Blocked(component, noMatches) <==> !JoinsCleanly(pair, ids, auto, matches, recorded, noMatches))
            && (!Blocked(component, noMatches) ==>
                  (Blocked(component, severe) <==> MeetsSevere(pair, ids, auto, matches, recorded, severe)))
  {
    CleanForcedIsCleanUnforced(pair, ids, auto, matches, recorded, noMatches, {});
  }

  /** Each answer, exactly when it is given. A contradiction comes before an unknown record when the closure finds
      it, and before a severe conflict always: a component that holds a NO_MATCH pair is a contradiction whether or
      not it also holds a severe pair. */
  lemma EachVerdictExactlyWhen(
    pair: Pair, ids: set<RecordId>, auto: seq<Pair>, severe: set<Pair>,
    cases: seq<ReviewCase>, existingMatches: set<Pair>, existingNoMatches: set<Pair>)
    ensures var verdict := BoundaryVerdict(pair, ids, auto, severe, cases, existingMatches, existingNoMatches);
            var allows := ClosureAllows(pair, cases, existingMatches, existingNoMatches);
            var matches, recorded := MatchPairs(cases) + {pair}, NoMatchPairs(cases);
            var noMatches, known := EffectiveNoMatches(cases, existingNoMatches), Grounded(ids, auto, matches);
            && (verdict.MissingRecord? <==> allows && !known)
            && (verdict.Contradiction? <==>
                  !allows || (known && !JoinsCleanly(pair, ids, auto, matches, recorded, noMatches)))
            && (verdict.SevereConflict? <==>
                  && allows && known && JoinsCleanly(pair, ids, auto, matches, recorded, noMatches)
                  && MeetsSevere(pair, ids, auto, matches, recorded, severe))
            && (verdict.Authorized? <==>
                  && allows && known && JoinsCleanly(pair, ids, auto, matches, recorded, noMatches)
                  && !MeetsSevere(pair, ids, auto, matches, recorded, severe))
  {
    if Grounded(ids, auto, MatchPairs(cases) + {pair}) {
      ForcedComponentDecides(pair, ids, auto, MatchPairs(cases) + {pair}, NoMatchPairs(cases),
        EffectiveNoMatches(cases, existingNoMatches), severe);
    }
  }

  /** Everything the boundary may join along: AUTO_MATCH edges, MATCHes recorded or handed in, and the new pair. */
  function JoiningEdges(pair: Pair, auto: seq<Pair>, cases: seq<ReviewCase>, existingMatches: set<Pair>): set<Pair> {
    EdgeSet(auto) + MatchPairs(cases) + EffectiveMatches(cases, existingMatches) + {pair}
  }

  /** A contradiction always names a NO_MATCH pair whose ends those edges connect, so it is never the answer where
      no NO_MATCH was recorded or handed in. */
  lemma ContradictionNeedsANoMatch(
    pair: Pair, ids: set<RecordId>, auto: seq<Pair>, severe: set<Pair>,
    cases: seq<ReviewCase>, existingMatches: set<Pair>, existingNoMatches: set<Pair>) returns (n: Pair)
    requires BoundaryVerdict(pair, ids, auto, severe, cases, existingMatches, existingNoMatches).Contradiction?
    ensures n in EffectiveNoMatches(cases, existingNoMatches)
    ensures Connected(JoiningEdges(pair, auto, cases, existingMatches), n.a, n.b)
  {
    var matches, noMatches := MatchPairs(cases) + {pair}, EffectiveNoMatches(cases, existingNoMatches);
    var edges := JoiningEdges(pair, auto, cases, existingMatches);
    if !ClosureAllows(pair, cases, existingMatches, existingNoMatches) {
      n :| n in noMatches && Connected(EffectiveMatches(cases, existingMatches) + {pair}, n.a, n.b);
      MoreEdgesConnectMore(EffectiveMatches(cases, existingMatches) + {pair}, edges, n.a, n.b);
    } else {
      var part := Projection(ids, auto, matches, NoMatchPairs(cases), {pair});
      assert pair in matches;
      n :| n in noMatches && Inside(n, Component(part, pair.a));
      ComponentFollowsPaths(ids, auto, matches, NoMatchPairs(cases), {pair}, pair.a, n);
      MoreEdgesConnectMore(EdgeSet(auto) + matches, edges, n.a, n.b);
    }
  }

  /** A severe conflict always names a severe pair that those edges connect to the reviewed one, so it is never the
      answer where no pair is severe. */
  lemma SevereConflictNeedsASeverePair(
    pair: Pair, ids: set<RecordId>, auto: seq<Pair>, severe: set<Pair>,
    cases: seq<ReviewCase>, existingMatches: set<Pair>, existingNoMatches: set<Pair>) returns (s: Pair)
    requires BoundaryVerdict(pair, ids, auto, severe, cases, existingMatches, existingNoMatches).SevereConflict?
    ensures s in severe
    ensures Connected(EdgeSet(auto) + MatchPairs(cases) + {pair}, pair.a, s.a)
    ensures Connected(EdgeSet(auto) + MatchPairs(cases) + {pair}, pair.a, s.b)
  {
    var matches, recorded := MatchPairs(cases) + {pair}, NoMatchPairs(cases);
    EachVerdictExactlyWhen(pair, ids, auto, severe, cases, existingMatches, existingNoMatches);
    assert pair in matches;
    var part := Projection(ids, auto, matches, recorded, {});
    s :| s in severe && Inside(s, Component(part, pair.a));
    ComponentFollowsPaths(ids, auto, matches, recorded, {}, pair.a, s);
    assert EdgeSet(auto) + matches == EdgeSet(auto) + MatchPairs(cases) + {pair};
  }

  /** Where no NO_MATCH exists the answer is a question about paths: a severe conflict exactly when the edges connect
      the reviewed pair to both ends of a severe pair. */
  lemma WithoutNoMatchesItIsReachability(
    pair: Pair, ids: set<RecordId>, auto: seq<Pair>, severe: set<Pair>,
    cases: seq<ReviewCase>, existingMatches: set<Pair>, existingNoMatches: set<Pair>)
    requires EffectiveNoMatches(cases, existingNoMatches) == {} && Grounded(ids, auto, MatchPairs(cases) + {pair})
    ensures var verdict := BoundaryVerdict(pair, ids, auto, severe, cases, existingMatches, existingNoMatches);
            var edges := EdgeSet(auto) + MatchPairs(cases) + {pair};
            && (verdict.SevereConflict? <==>
                  exists s :: s in severe && Connected(edges, pair.a, s.a) && Connected(edges, pair.a, s.b))
            && (verdict.SevereConflict? || verdict.Authorized?)
  {
    var matches := MatchPairs(cases) + {pair};
    var edges := EdgeSet(auto) + MatchPairs(cases) + {pair};
    var verdict := BoundaryVerdict(pair, ids, auto, severe, cases, existingMatches, existingNoMatches);
    assert EdgeSet(auto) + matches == edges && pair in matches && NoMatchPairs(cases) == {};
    EachVerdictExactlyWhen(pair, ids, auto, severe, cases, existingMatches, existingNoMatches);
    var part := Projection(ids, auto, matches, {}, {});
    EdgeConnects(edges, pair);
    UnopposedProjectionIsReachability(ids, auto, matches, {}, pair.a, pair.b);
    forall s | s in severe
      ensures Inside(s, Component(part, pair.a)) <==> Connected(edges, pair.a, s.a) && Connected(edges, pair.a, s.b)
    {
      UnopposedProjectionIsReachability(ids, auto, matches, {}, pair.a, s.a);
      UnopposedProjectionIsReachability(ids, auto, matches, {}, pair.a, s.b);
    }
  }
}
