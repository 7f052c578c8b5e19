/** Two MATCHes that are each acceptable, but not together: why a decision is only good for the queue it was
    taken on. */
module JointMatches {
  import opened Results
  import opened Records
  import opened Partitions
  import opened GreedyPass
  import opened Resolution
  import opened Review
  import opened Constraints
  import opened Authorization
  import opened Workflow
  import opened WorkflowRuns

  /** What is wrong with a recorded pair once all of `matches` are recorded: a contradiction, a pair the projection
      does not join, or a severe pair in its component. */
  ghost predicate Unclean(
    pair: Pair, ids: set<RecordId>, auto: seq<Pair>, matches: set<Pair>, noMatches: set<Pair>, severe: set<Pair>)
    requires Grounded(ids, auto, matches)
  {
    var unforced := Projection(ids, auto, matches, noMatches, {});
    Contradictory(matches, noMatches) || !Same(unforced, pair.a, pair.b) || Blocked(Component(unforced, pair.a), severe)
  }

  /** A MATCH is refused, on whatever is recorded by then, exactly when recording it would be unclean. */
  lemma RefusedExactlyWhenUnclean(
    pair: Pair, ids: set<RecordId>, auto: seq<Pair>, severe: set<Pair>, cases: seq<ReviewCase>)
    requires Grounded(ids, auto, MatchPairs(cases) + {pair})
    ensures !BoundaryVerdict(pair, ids, auto, severe, cases, {}, {}).Authorized?
            <==> Unclean(pair, ids, auto, MatchPairs(cases) + {pair}, NoMatchPairs(cases), severe)
  {
    var matches, noMatches := MatchPairs(cases) + {pair}, NoMatchPairs(cases);
    AuthorizedExactlyWhenCleanUnforced(pair, ids, auto, severe, cases, {}, {});
    assert EffectiveNoMatches(cases, {}) == noMatches;
    UnforcedIsSafe(ids, auto, matches, noMatches);
    SafeIsUnblocked(Projection(ids, auto, matches, noMatches, {}), noMatches, pair.a);
  }

  ghost predicate IsMatch(state: WorkflowState, call: Call, context: AuthContext) {
    call.decision.DecideMatch? && call.context == context && Accepts(state, call)
  }

  function PairOf(state: WorkflowState, call: Call): Pair
    requires FindCase(state.cases, call.id).Some?
  {
    FindCase(state.cases, call.id).value.pair
  }

  /** What a MATCH that was accepted on `state` meets when another was recorded first. */
  lemma SecondRefusedExactlyWhenUnclean(state: WorkflowState, a: Call, b: Call, context: AuthContext)
    requires UniqueIds(state.cases) && a.id != b.id && IsMatch(state, a, context) && IsMatch(state, b, context)
    ensures context.decisions.Some? && context.records.Some? && context.config.Some?
    ensures var ids, auto := context.records.value, AutoEdges(context.decisions.value);
            var both := MatchPairs(state.cases) + {PairOf(state, a), PairOf(state, b)};
            && Grounded(ids, auto, both)
            && (!Accepts(Next(state, a), b)
                <==> Unclean(PairOf(state, b), ids, auto, both, NoMatchPairs(state.cases), context.config.value.severe))
  {
    var ids, auto, severe := context.records.value, AutoEdges(context.decisions.value), context.config.value.severe;
    var c, d := FindCase(state.cases, a.id).value, FindCase(state.cases, b.id).value;
    var next := Next(state, a);
    RecordedPairs(state, c, a.decision, a.reviewer);
    assert NoMatchPairs(state.cases) + {} == NoMatchPairs(state.cases);
    OtherCaseStays(state, a, b.id);
    AcceptedIsGrounded(state, a, context);
    AcceptedIsGrounded(state, b, context);
    assert MatchPairs(next.cases) + {d.pair} == MatchPairs(state.cases) + {c.pair, d.pair};
    RefusedExactlyWhenUnclean(d.pair, ids, auto, severe, next.cases);
  }

  lemma AcceptedIsGrounded(state: WorkflowState, call: Call, context: AuthContext)
    requires IsMatch(state, call, context)
    ensures context.decisions.Some? && context.records.Some? && context.config.Some?
    ensures FindCase(state.cases, call.id).Some? && FindCase(state.cases, call.id).value.status.Pending?
    ensures Grounded(
              context.records.value, AutoEdges(context.decisions.value), MatchPairs(state.cases) + {PairOf(state, call)})
    ensures context.records.value != {} && Inside(PairOf(state, call), context.records.value)
  {
    var c := FindCase(state.cases, call.id).value;
    assert MatchRefusal(state.cases, c, context).None?;
  }

  lemma OtherCaseStays(state: WorkflowState, call: Call, id: CaseId)
    requires UniqueIds(state.cases) && id != call.id && FindCase(state.cases, id).Some?
    ensures FindCase(Next(state, call).cases, id) == FindCase(state.cases, id)
  {
    var next, c := Next(state, call), FindCase(state.cases, id).value;
    NextKeepsShape(state, call);
    ShapeKeepsIds(state.cases, next.cases);
    var i :| 0 <= i < |state.cases| && state.cases[i] == c;
    AcceptedCallRecordsItself(state, call);
    FindsAt(next.cases, i);
  }

  /** Two MATCHes, each accepted on one state: neither order accepts both exactly when, with both recorded, the
      MATCHes contradict a NO_MATCH, or each of the two pairs is left apart or in one component with a severe pair.
      The combined state is then one the domain refuses however it is asked. */
  lemma NeitherOrderAcceptsBothExactlyWhen(state: WorkflowState, a: Call, b: Call, context: AuthContext)
    requires UniqueIds(state.cases) && a.id != b.id && IsMatch(state, a, context) && IsMatch(state, b, context)
    ensures context.decisions.Some? && context.records.Some? && context.config.Some?
    ensures var ids, auto := context.records.value, AutoEdges(context.decisions.value);
            var both, noMatches := MatchPairs(state.cases) + {PairOf(state, a), PairOf(state, b)}, NoMatchPairs(state.cases);
            var severe := context.config.value.severe;
            && Grounded(ids, auto, both)
            && (!Accepts(Next(state, a), b) && !Accepts(Next(state, b), a)
                <==> Unclean(PairOf(state, a), ids, auto, both, noMatches, severe) &&
                     Unclean(PairOf(state, b), ids, auto, both, noMatches, severe))
  {
    SecondRefusedExactlyWhenUnclean(state, a, b, context);
    SecondRefusedExactlyWhenUnclean(state, b, a, context);
    assert MatchPairs(state.cases) + {PairOf(state, a), PairOf(state, b)}
        == MatchPairs(state.cases) + {PairOf(state, b), PairOf(state, a)};
  }

  // ---- one such queue ----------------------------------------------------------------------------------------------

  const IDS: set<RecordId> := {0, 1, 2}
  const SEVERE: set<Pair> := {RecordPair(0, 2)}
  const CONTEXT := AuthContext(Some([]), Some(IDS), Some(Config(true, SEVERE)))
  const LEFT: Pair := RecordPair(0, 1)
  const RIGHT: Pair := RecordPair(1, 2)
  const QUEUE := WorkflowState([PendingCase("left", LEFT), PendingCase("right", RIGHT)], [], 1)

  /** With nothing forbidden, every recorded pair is joined. */
  lemma UnopposedPairIsJoined(matches: set<Pair>, pair: Pair)
    requires Grounded(IDS, [], matches) && pair in matches
    ensures Same(Projection(IDS, [], matches, {}, {}), pair.a, pair.b)
  {
    var edges := SortedPairs(matches);
    var start := Greedy(Discrete(IDS), [], {}, {}).part;
    assert pair in edges;
    var i :| 0 <= i < |edges| && edges[i] == pair;
    DecidedAt(start, edges, {}, {}, i);
  }

  lemma AloneIsClean(pair: Pair)
    requires pair == LEFT || pair == RIGHT
    ensures Grounded(IDS, [], {pair}) && !Unclean(pair, IDS, [], {pair}, {}, SEVERE)
  {
    var start := Discrete(IDS);
    UnopposedPairIsJoined({pair}, pair);
    assert {pair} - {pair} == {} && SortedPairs({pair}) == [pair];
    assert [pair][..0] == [];
    assert Projection(IDS, [], {pair}, {}, {}) == Merge(start, pair);
    MergedClass(start, pair);
    assert Proposed(start, pair) == {pair.a, pair.b};
  }

  lemma TogetherIsUnclean(pair: Pair)
    requires pair == LEFT || pair == RIGHT
    ensures Grounded(IDS, [], {LEFT, RIGHT}) && Unclean(pair, IDS, [], {LEFT, RIGHT}, {}, SEVERE)
  {
    var part := Projection(IDS, [], {LEFT, RIGHT}, {}, {});
    UnopposedPairIsJoined({LEFT, RIGHT}, LEFT);
    UnopposedPairIsJoined({LEFT, RIGHT}, RIGHT);
    var f: Pair := RecordPair(0, 2);
    assert f in SEVERE && Inside(f, Component(part, pair.a));
  }

  lemma QueueRecordsNothing()
    ensures UniqueIds(QUEUE.cases) && MatchPairs(QUEUE.cases) == {} && NoMatchPairs(QUEUE.cases) == {}
    ensures FindCase(QUEUE.cases, "left") == Some(PendingCase("left", LEFT))
    ensures FindCase(QUEUE.cases, "right") == Some(PendingCase("right", RIGHT))
  {
    FindsAt(QUEUE.cases, 0);
    FindsAt(QUEUE.cases, 1);
  }

  lemma AloneIsAccepted(id: CaseId, pair: Pair)
    requires (id == "left" && pair == LEFT) || (id == "right" && pair == RIGHT)
    ensures IsMatch(QUEUE, Call(id, DecideMatch, None, CONTEXT), CONTEXT)
  {
    QueueRecordsNothing();
    AloneIsAuthorized(QUEUE.cases, pair);
    assert FindCase(QUEUE.cases, id) == Some(PendingCase(id, pair));
    assert MatchRefusal(QUEUE.cases, PendingCase(id, pair), CONTEXT).None?;
  }

  lemma AloneIsAuthorized(cases: seq<ReviewCase>, pair: Pair)
    requires MatchPairs(cases) == {} && NoMatchPairs(cases) == {} && (pair == LEFT || pair == RIGHT)
    ensures BoundaryVerdict(pair, IDS, AutoEdges([]), SEVERE, cases, {}, {}).Authorized?
  {
    AloneIsClean(pair);
    assert MatchPairs(cases) + {pair} == {pair} && AutoEdges([]) == [];
    RefusedExactlyWhenUnclean(pair, IDS, [], SEVERE, cases);
  }

  /** MATCH (0, 1) and MATCH (1, 2) are each accepted on one queue; after either, the other is refused, because
      together they would bring the severe pair (0, 2) into one component. */
  lemma EachAloneButNotBoth() returns (left: Call, right: Call)
    ensures UniqueIds(QUEUE.cases) && left.id != right.id
    ensures IsMatch(QUEUE, left, CONTEXT) && IsMatch(QUEUE, right, CONTEXT)
    ensures !Accepts(Next(QUEUE, left), right) && !Accepts(Next(QUEUE, right), left)
  {
    left, right := Call("left", DecideMatch, None, CONTEXT), Call("right", DecideMatch, None, CONTEXT);
    QueueRecordsNothing();
    AloneIsAccepted("left", LEFT);
    AloneIsAccepted("right", RIGHT);
    TogetherIsUnclean(LEFT);
    TogetherIsUnclean(RIGHT);
    assert MatchPairs(QUEUE.cases) + {LEFT, RIGHT} == {LEFT, RIGHT};
    NeitherOrderAcceptsBothExactlyWhen(QUEUE, left, right, CONTEXT);
  }
}
