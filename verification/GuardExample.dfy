/** Where the two greedy passes part ways: a busy guard. One concrete queue shows that the final cluster of
    an authorized MATCH can be flagged, so the idle-guard condition of the agreement theorem is needed. */
module GuardExample {
  import opened Results
  import opened Records
  import opened Partitions
  import opened GreedyPass
  import opened Resolution
  import opened Review
  import opened Constraints
  import opened Authorization
  import opened Clustering
  import opened Integration

  const IDS: set<RecordId> := {0, 1, 2, 3, 4}
  const AUTO: seq<Pair> := [RecordPair(0, 1), RecordPair(1, 2), RecordPair(2, 3)]
  const CONFIG := Config(true, {RecordPair(0, 2), RecordPair(2, 4)})
  const REVIEWED: Pair := RecordPair(3, 4)

  const RESOLUTION :=
    ReviewResolution("keep-apart", DecideNoMatch, None, 1, MatchDecisionType.Review, "", NoMatchRecorded)
  const CASES: seq<ReviewCase> :=
    [ReviewCase("keep-apart", RecordPair(1, 3), MatchDecisionType.Review, "", NotMatched, Some(RESOLUTION))]

  /** One more edge of a pass, accepted into `next` or refused over `f`. */
  lemma Takes(edges: seq<Pair>, e: Pair, forbidden: set<Pair>, now: Partition, next: Partition)
    requires Known(edges, IDS) && Inside(e, IDS) && now == Greedy(Discrete(IDS), edges, forbidden, {}).part
    requires !Blocked(Proposed(now, e), forbidden) && next == Merge(now, e)
    ensures Greedy(Discrete(IDS), edges + [e], forbidden, {}).part == next
  {
    assert (edges + [e])[..|edges|] == edges;
  }

  lemma Refuses(edges: seq<Pair>, e: Pair, forbidden: set<Pair>, now: Partition, f: Pair)
    requires Known(edges, IDS) && Inside(e, IDS) && now == Greedy(Discrete(IDS), edges, forbidden, {}).part
    requires f in forbidden && Inside(f, Proposed(now, e))
    ensures Greedy(Discrete(IDS), edges + [e], forbidden, {}).part == now
  {
    assert (edges + [e])[..|edges|] == edges;
  }

  const FIRST: Partition := map[0 := 0, 1 := 0, 2 := 2, 3 := 3, 4 := 4]
  const PROJECTED: Partition := map[0 := 0, 1 := 0, 2 := 0, 3 := 3, 4 := 4]
  const GUARDED: Partition := map[0 := 0, 1 := 0, 2 := 2, 3 := 2, 4 := 4]
  const KEPT_APART: set<Pair> := {RecordPair(1, 3)}

  lemma FirstEdge(forbidden: set<Pair>)
    requires RecordPair(0, 1) !in forbidden
    ensures Greedy(Discrete(IDS), [RecordPair(0, 1)], forbidden, {}).part == FIRST
  {
    assert Proposed(Discrete(IDS), RecordPair(0, 1)) == {0, 1};
    assert Merge(Discrete(IDS), RecordPair(0, 1)) == FIRST;
    Takes([], RecordPair(0, 1), forbidden, Discrete(IDS), FIRST);
    assert [] + [RecordPair(0, 1)] == [RecordPair(0, 1)];
  }

  /** Without the guard, the AUTO_MATCH pass joins 0, 1 and 2, and NO_MATCH (1, 3) keeps 3 out. */
  lemma ProjectedPass()
    ensures Known(AUTO, IDS) && Greedy(Discrete(IDS), AUTO, KEPT_APART, {}).part == PROJECTED
  {
    FirstEdge(KEPT_APART);
    assert Merge(FIRST, RecordPair(1, 2)) == PROJECTED;
    Takes([RecordPair(0, 1)], RecordPair(1, 2), KEPT_APART, FIRST, PROJECTED);
    var two: seq<Pair> := [RecordPair(0, 1), RecordPair(1, 2)];
    assert [RecordPair(0, 1)] + [RecordPair(1, 2)] == two;
    Refuses(two, RecordPair(2, 3), KEPT_APART, PROJECTED, RecordPair(1, 3));
    assert AUTO == two + [RecordPair(2, 3)];
  }

  /** With it, the guard refuses (1, 2) for the severe pair (0, 2), and nothing keeps 3 from 2 any more. */
  lemma GuardedPass()
    ensures Known(AUTO, IDS) && AutoPass(IDS, AUTO, KEPT_APART, CONFIG).part == GUARDED
  {
    var forbidden := KEPT_APART + Guarded(CONFIG);
    FirstEdge(forbidden);
    Refuses([RecordPair(0, 1)], RecordPair(1, 2), forbidden, FIRST, RecordPair(0, 2));
    var two: seq<Pair> := [RecordPair(0, 1), RecordPair(1, 2)];
    assert [RecordPair(0, 1)] + [RecordPair(1, 2)] == two;
    assert Proposed(FIRST, RecordPair(2, 3)) == {2, 3};
    assert Merge(FIRST, RecordPair(2, 3)) == GUARDED;
    Takes(two, RecordPair(2, 3), forbidden, FIRST, GUARDED);
    assert AUTO == two + [RecordPair(2, 3)];
  }

  lemma OneEdgePass(start: Partition, e: Pair, forbidden: set<Pair>)
    requires Inside(e, start.Keys) && !Blocked(Proposed(start, e), forbidden)
    ensures SortedPairs({e}) == [e]
    ensures Greedy(start, [e], forbidden, {}).part == Merge(start, e)
  {
    assert {e} - {e} == {};
    assert [e][..0] == [];
  }

  lemma RecordedPairs()
    ensures MatchPairs(CASES) == {} && NoMatchPairs(CASES) == KEPT_APART
  {
    assert CASES[0] in CASES;
  }

  lemma ProjectedComponentIsClean()
    ensures Grounded(IDS, AUTO, {REVIEWED})
    ensures Same(Projection(IDS, AUTO, {REVIEWED}, KEPT_APART, {}), 3, 4)
    ensures Component(Projection(IDS, AUTO, {REVIEWED}, KEPT_APART, {}), 3) == {3, 4}
  {
    ProjectedPass();
    assert Proposed(PROJECTED, REVIEWED) == {3, 4};
    OneEdgePass(PROJECTED, REVIEWED, KEPT_APART);
    assert Component(Merge(PROJECTED, REVIEWED), 3) == {3, 4};
  }

  lemma FinalComponentIsNot()
    ensures Grounded(IDS, AUTO, {REVIEWED})
    ensures Component(HumanPass(IDS, AUTO, {REVIEWED}, KEPT_APART, CONFIG).part, 3) == {2, 3, 4}
  {
    GuardedPass();
    assert Proposed(GUARDED, REVIEWED) == {2, 3, 4};
    OneEdgePass(GUARDED, REVIEWED, KEPT_APART);
    assert Component(Merge(GUARDED, REVIEWED), 3) == {2, 3, 4};
  }

  lemma BoundaryAuthorizes(cases: seq<ReviewCase>)
    requires MatchPairs(cases) == {} && NoMatchPairs(cases) == KEPT_APART
    ensures BoundaryVerdict(REVIEWED, IDS, AUTO, CONFIG.severe, cases, {}, {}).Authorized?
  {
    assert MatchPairs(cases) + {REVIEWED} == {REVIEWED} && EffectiveNoMatches(cases, {}) == KEPT_APART;
    ReviewedIsCleanUnforced();
    NoPathToOne({REVIEWED});
    AuthorizedExactlyWhenCleanUnforced(REVIEWED, IDS, AUTO, CONFIG.severe, cases, {}, {});
  }

  lemma ReviewedIsCleanUnforced()
    ensures Grounded(IDS, AUTO, {REVIEWED})
    ensures CleanUnforced(REVIEWED, IDS, AUTO, {REVIEWED}, KEPT_APART, KEPT_APART, CONFIG.severe)
  {
    ProjectedComponentIsClean();
    NeitherPairInside({3, 4});
  }

  lemma NeitherPairInside(ids: set<RecordId>)
    requires ids == {3, 4}
    ensures !Blocked(ids, KEPT_APART) && !Blocked(ids, CONFIG.severe)
  {
  }

  lemma SeverePairInside(ids: set<RecordId>)
    requires ids == {2, 3, 4}
    ensures Blocked(ids, CONFIG.severe)
  {
    var f: Pair := RecordPair(2, 4);
    assert f in CONFIG.severe && Inside(f, ids);
  }

  /** The boundary authorizes MATCH (3, 4); once it is recorded, the final clusters list 2, 3 and 4 together, and
      flag them for the severe pair (2, 4). */
  lemma BusyGuardFlagsAnAuthorizedMatch() returns (c: EntityCluster)
    ensures BoundaryVerdict(REVIEWED, IDS, AUTO, CONFIG.severe, CASES, {}, {}).Authorized?
    ensures Grounded(IDS, AUTO, MatchPairs(CASES) + {REVIEWED})
    ensures c in FinalClusters(IDS, AUTO, MatchPairs(CASES) + {REVIEWED}, NoMatchPairs(CASES), CONFIG)
    ensures IdSet(c.members) == {2, 3, 4} && c.hasInternalConflict
  {
    RecordedPairs();
    BoundaryAuthorizes(CASES);
    assert MatchPairs(CASES) + {REVIEWED} == {REVIEWED};
    FinalComponentIsNot();
    SeverePairInside({2, 3, 4});
    c := ReviewedClusterIsListed();
  }

  lemma ReviewedClusterIsListed() returns (c: EntityCluster)
    ensures Grounded(IDS, AUTO, {REVIEWED})
    ensures c in FinalClusters(IDS, AUTO, {REVIEWED}, KEPT_APART, CONFIG)
    ensures IdSet(c.members) == {2, 3, 4} && (c.hasInternalConflict <==> Blocked({2, 3, 4}, CONFIG.severe))
  {
    FinalComponentIsNot();
    var part := HumanPass(IDS, AUTO, {REVIEWED}, KEPT_APART, CONFIG).part;
    assert 4 in Component(part, 3);
    c := EveryLargeComponentIsListed(IDS, AUTO, {REVIEWED}, KEPT_APART, CONFIG, 3, 4);
    MembersOfSorted(c.members, Component(part, 3));
  }

  lemma NoPathToOne(edges: set<Pair>)
    requires edges == {REVIEWED}
    ensures !Contradictory(edges, KEPT_APART)
  {
    assert EdgeSet([REVIEWED]) == edges;
    OutsiderIsIsolated({3, 4}, [REVIEWED], 1, 3);
  }
}
