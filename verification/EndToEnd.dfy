/** From an accepted MATCH on the stored queue to the cluster final clustering then lists: what was authorized
    against the rebuilt snapshot holds of what is built from the full resolution. */
module EndToEnd {
  import opened Results
  import opened Records
  import opened Partitions
  import opened GreedyPass
  import opened Resolution
  import opened Review
  import opened Authorization
  import opened Integration
  import opened Workflow
  import WorkflowRuns
  import opened History
  import opened Reporting
  import opened Service
  import ServiceProofs

  /** A MATCH the service accepts on a queue whose snapshot was taken from these decisions. */
  ghost predicate AcceptsMatch(
    store: QueueStore, request: Request, config: Config, now: string, decisions: seq<MatchDecision>)
  {
    WellStored(store) && store.snapshot == ResolutionSnapshot(decisions) && request.decision.DecideMatch? &&
    Serviced(store, request, Ok(Some(config)), now).Ok?
  }

  ghost function CasesAfter(store: QueueStore, request: Request, config: Config, now: string): seq<ReviewCase>
    requires WellStored(store) && Serviced(store, request, Ok(Some(config)), now).Ok?
  {
    CasesOf(Serviced(store, request, Ok(Some(config)), now).value.cases)
  }

  /** The decision behind an accepted MATCH: the workflow's own next state, on the cases as they are stored. */
  lemma AcceptedMatchIsDecided(
    store: QueueStore, request: Request, config: Config, now: string, decisions: seq<MatchDecision>)
    returns (c: ReviewCase, state: WorkflowState)
    requires AcceptsMatch(store, request, config, now, decisions)
    ensures FindCase(CasesOf(store.cases), request.id) == Some(c) && c.status.Pending?
    ensures state.cases == CasesOf(store.cases)
    ensures Decide(store, request, Ok(Some(config))) == Ok(Recorded(state, c, request.decision, request.reviewer))
    ensures BoundaryVerdict(
              c.pair, store.records, AutoEdges(decisions), config.severe, CasesOf(store.cases), {}, {}).Authorized?
  {
    SnapshotKeepsAutoEdges(decisions);
    state := LoadBundle(store).value;
    c := FindCase(state.cases, request.id).value;
    var context := ContextFor(store, request.decision, Ok(Some(config))).value;
    assert Resolved(state, request.id, request.decision, request.reviewer, context).Ok?;
    assert MatchRefusal(state.cases, c, context).None?;
  }

  /** What such a call records: the reviewed pair, and nothing else. */
  lemma AcceptedMatchRecordsItsPair(
    store: QueueStore, request: Request, config: Config, now: string, decisions: seq<MatchDecision>, c: ReviewCase,
    state: WorkflowState)
    requires AcceptsMatch(store, request, config, now, decisions)
    requires FindCase(CasesOf(store.cases), request.id) == Some(c) && c.status.Pending?
    requires state.cases == CasesOf(store.cases)
    requires Decide(store, request, Ok(Some(config))) == Ok(Recorded(state, c, request.decision, request.reviewer))
    ensures MatchPairs(CasesAfter(store, request, config, now)) == MatchPairs(CasesOf(store.cases)) + {c.pair}
    ensures NoMatchPairs(CasesAfter(store, request, config, now)) == NoMatchPairs(CasesOf(store.cases))
  {
    var updated := Decided(c, request.decision, request.reviewer, state.nextSequence);
    ServiceProofs.FindUpdated(CasesOf(store.cases), updated);
    ServiceProofs.RowsMirrorCases(store.cases, updated, now);
    WorkflowRuns.RecordedPairs(state, c, request.decision, request.reviewer);
    assert NoMatchPairs(state.cases) + {} == NoMatchPairs(state.cases);
  }

  /** While the conflict guard is idle, the cluster listed for a MATCH the service accepted holds both reviewed
      records, no NO_MATCH pair recorded by then, and no severe pair. */
  lemma AcceptedMatchGetsACleanCluster(
    store: QueueStore, request: Request, config: Config, now: string, decisions: seq<MatchDecision>)
    returns (pair: Pair, c: EntityCluster)
    requires AcceptsMatch(store, request, config, now, decisions)
    requires Known(AutoEdges(decisions), store.records) ==>
               GuardIsIdle(store.records, AutoEdges(decisions), NoMatchPairs(CasesOf(store.cases)), config)
    ensures var cases := CasesAfter(store, request, config, now);
            && MatchPairs(cases) == MatchPairs(CasesOf(store.cases)) + {pair}
            && Grounded(store.records, AutoEdges(decisions), MatchPairs(cases))
            && c in FinalClusters(store.records, AutoEdges(decisions), MatchPairs(cases), NoMatchPairs(cases), config)
            && Inside(pair, IdSet(c.members)) && !c.hasInternalConflict
            && !Blocked(IdSet(c.members), NoMatchPairs(cases)) && !Blocked(IdSet(c.members), config.severe)
  {
    var reviewed, state := AcceptedMatchIsDecided(store, request, config, now, decisions);
    AcceptedMatchRecordsItsPair(store, request, config, now, decisions, reviewed, state);
    pair := reviewed.pair;
    c := AuthorizedMatchBuildsItsProjection(
      pair, store.records, AutoEdges(decisions), config, CasesOf(store.cases), CasesAfter(store, request, config, now));
    FlagTellsSevere(store.records, AutoEdges(decisions), CasesAfter(store, request, config, now), config, c);
  }

  lemma FlagTellsSevere(
    ids: set<RecordId>, auto: seq<Pair>, cases: seq<ReviewCase>, config: Config, c: EntityCluster)
    requires Grounded(ids, auto, MatchPairs(cases))
    requires c in FinalClusters(ids, auto, MatchPairs(cases), NoMatchPairs(cases), config)
    ensures c.hasInternalConflict <==> Blocked(IdSet(c.members), config.severe)
  {
    ReviewClusterComesFrom(
      ComponentList(HumanPass(ids, auto, MatchPairs(cases), NoMatchPairs(cases), config).part),
      Chosen(auto, AutoPass(ids, auto, NoMatchPairs(cases), config).taken), SortedPairs(MatchPairs(cases)),
      config.severe, c);
  }

  /** With the guard on, idle or busy: the reviewed records are listed in one cluster exactly when no NO_MATCH pair
      lay in their two components at the pair's turn, and that cluster is flagged exactly when a human edge crossed
      a conflict on the way into it. */
  lemma AcceptedMatchIsFlaggedExactlyWhen(
    store: QueueStore, request: Request, config: Config, now: string, decisions: seq<MatchDecision>)
    returns (pair: Pair, c: Option<EntityCluster>)
    requires AcceptsMatch(store, request, config, now, decisions) && config.clusterConflictGuard
    ensures var cases, auto := CasesAfter(store, request, config, now), AutoEdges(decisions);
            && MatchPairs(cases) == MatchPairs(CasesOf(store.cases)) + {pair}
            && Grounded(store.records, auto, MatchPairs(cases))
            && (c.Some? <==> JoinsAtItsTurn(
                  store.records, auto, MatchPairs(cases), NoMatchPairs(cases), config, pair))
            && (c.Some? ==>
                  && c.value in FinalClusters(store.records, auto, MatchPairs(cases), NoMatchPairs(cases), config)
                  && Inside(pair, IdSet(c.value.members))
                  && (c.value.hasInternalConflict <==> exists i :: HumanEdgeCrossesConflict(
                        store.records, auto, MatchPairs(cases), NoMatchPairs(cases), config, pair.a, i)))
  {
    var reviewed, state := AcceptedMatchIsDecided(store, request, config, now, decisions);
    AcceptedMatchRecordsItsPair(store, request, config, now, decisions, reviewed, state);
    pair := reviewed.pair;
    c := AuthorizedMatchIsFlaggedExactlyWhen(
      pair, store.records, AutoEdges(decisions), config, CasesOf(store.cases), CasesAfter(store, request, config, now));
  }
}
