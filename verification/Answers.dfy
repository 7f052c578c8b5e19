/** When the workflow accepts a call, and which refusal answers which failure. */
module Answers {
  import opened Results
  import opened Records
  import opened Partitions
  import opened Resolution
  import opened Review
  import opened Constraints
  import opened Authorization
  import opened Verdicts
  import opened Workflow
  import opened WorkflowRuns
  import opened JointMatches

  ghost function Answer(state: WorkflowState, call: Call): Result<WorkflowState, ReviewError> {
    Resolved(state, call.id, call.decision, call.reviewer, call.context)
  }

  /** Nothing the authorization needs is missing, and both reviewed records are known. */
  predicate FitsMatch(c: ReviewCase, context: AuthContext) {
    && context.decisions.Some? && context.records.Some? && context.records.value != {} && context.config.Some?
    && Inside(c.pair, context.records.value)
  }

  /** Recording a MATCH on this case joins known records only, and leaves its pair clean. */
  ghost predicate LeavesClean(cases: seq<ReviewCase>, c: ReviewCase, context: AuthContext)
    requires FitsMatch(c, context)
  {
    var ids, auto, matches := context.records.value, AutoEdges(context.decisions.value), MatchPairs(cases) + {c.pair};
    Grounded(ids, auto, matches) && !Unclean(c.pair, ids, auto, matches, NoMatchPairs(cases), context.config.value.severe)
  }

  lemma FoundIsTheCase(cases: seq<ReviewCase>, c: ReviewCase)
    requires UniqueIds(cases) && c in cases
    ensures FindCase(cases, c.id) == Some(c)
  {
    SameIdSameCase(cases, c, FindCase(cases, c.id).value);
  }

  /** The acceptance law. A NO_MATCH or a DEFER is accepted exactly when some case has the id and is PENDING,
      whatever the context; a MATCH exactly when, besides, the context is complete, both reviewed records are known,
      and recording it would leave its pair clean. */
  lemma AcceptedExactlyWhen(state: WorkflowState, call: Call)
    requires UniqueIds(state.cases)
    ensures Accepts(state, call) <==>
            exists c :: c in state.cases && c.id == call.id && c.status.Pending? &&
                        (call.decision.DecideMatch? ==>
                           FitsMatch(c, call.context) && LeavesClean(state.cases, c, call.context))
  {
    forall c | c in state.cases && c.id == call.id
      ensures Accepts(state, call) <==>
              c.status.Pending? && (call.decision.DecideMatch? ==>
                FitsMatch(c, call.context) && LeavesClean(state.cases, c, call.context))
    {
      FoundIsTheCase(state.cases, c);
      if call.decision.DecideMatch? && c.status.Pending? && FitsMatch(c, call.context) {
        var ids, auto := call.context.records.value, AutoEdges(call.context.decisions.value);
        var severe := call.context.config.value.severe;
        EachVerdictExactlyWhen(c.pair, ids, auto, severe, state.cases, {}, {});
        if Grounded(ids, auto, MatchPairs(state.cases) + {c.pair}) {
          RefusedExactlyWhenUnclean(c.pair, ids, auto, severe, state.cases);
        }
      }
    }
  }

  /** A call is refused as unknown exactly when no case has its id, and as an invalid transition exactly when the
      case that has it is no longer PENDING. */
  lemma RefusedBeforeAuthorization(state: WorkflowState, call: Call)
    requires UniqueIds(state.cases)
    ensures Answer(state, call) == Err(CaseNotFound) <==> forall c :: c in state.cases ==> c.id != call.id
    ensures Answer(state, call) == Err(InvalidTransition)
            <==> exists c :: c in state.cases && c.id == call.id && !c.status.Pending?
  {
    forall c | c in state.cases && c.id == call.id
      ensures Answer(state, call) != Err(CaseNotFound)
      ensures Answer(state, call) == Err(InvalidTransition) <==> !c.status.Pending?
    {
      FoundIsTheCase(state.cases, c);
    }
  }

  /** Which refusal a MATCH on a PENDING case meets: a context that does not fit; a contradiction, when MATCHes would
      join a NO_MATCH pair or the projection cannot join the reviewed one; an unknown record on some edge, when they
      would not; a severe conflict, when the pair is joined beside a severe one. */
  lemma MatchRefusedExactlyWhen(state: WorkflowState, call: Call, c: ReviewCase)
    requires UniqueIds(state.cases) && call.decision.DecideMatch?
    requires c in state.cases && c.id == call.id && c.status.Pending?
    ensures Answer(state, call) == Err(ContextMissing) <==> !FitsMatch(c, call.context)
    ensures FitsMatch(c, call.context) ==>
              var ids, auto := call.context.records.value, AutoEdges(call.context.decisions.value);
              var matches, noMatches := MatchPairs(state.cases) + {c.pair}, NoMatchPairs(state.cases);
              var consistent, known := !Contradictory(matches, noMatches), Grounded(ids, auto, matches);
              && (Answer(state, call) == Err(RecordMissing) <==> consistent && !known)
              && (Answer(state, call) == Err(HumanContradiction) <==>
                    !consistent || (known && !Same(Projection(ids, auto, matches, noMatches, {}), c.pair.a, c.pair.b)))
              && (Answer(state, call) == Err(SevereIdentityConflict) <==>
                    && consistent && known && Same(Projection(ids, auto, matches, noMatches, {}), c.pair.a, c.pair.b)
                    && Blocked(Component(Projection(ids, auto, matches, noMatches, {}), c.pair.a),
                               call.context.config.value.severe))
  {
    FoundIsTheCase(state.cases, c);
    if FitsMatch(c, call.context) {
      var ids, auto := call.context.records.value, AutoEdges(call.context.decisions.value);
      var matches, noMatches := MatchPairs(state.cases) + {c.pair}, NoMatchPairs(state.cases);
      var severe := call.context.config.value.severe;
      EachVerdictExactlyWhen(c.pair, ids, auto, severe, state.cases, {}, {});
      assert EffectiveNoMatches(state.cases, {}) == noMatches;
      if Grounded(ids, auto, matches) {
        JoinedIsUnblocked(ids, auto, matches, noMatches, c.pair);
      }
    }
  }

  /** An unforced projection has no NO_MATCH pair in any component. */
  lemma JoinedIsUnblocked(ids: set<RecordId>, auto: seq<Pair>, matches: set<Pair>, noMatches: set<Pair>, pair: Pair)
    requires Grounded(ids, auto, matches) && pair in matches
    ensures JoinsCleanly(pair, ids, auto, matches, noMatches, noMatches)
            <==> Same(Projection(ids, auto, matches, noMatches, {}), pair.a, pair.b)
  {
    UnforcedIsSafe(ids, auto, matches, noMatches);
    SafeIsUnblocked(Projection(ids, auto, matches, noMatches, {}), noMatches, pair.a);
  }

  /** A contradiction is only ever answered for a recorded NO_MATCH pair whose ends AUTO_MATCH edges, recorded MATCHes
      and the reviewed pair connect; a severe conflict only for a severe pair they connect to the reviewed one. */
  lemma RefusalNamesAPath(state: WorkflowState, call: Call, c: ReviewCase) returns (p: Pair)
    requires UniqueIds(state.cases) && call.decision.DecideMatch? && c in state.cases && c.id == call.id
    requires Answer(state, call) == Err(HumanContradiction) || Answer(state, call) == Err(SevereIdentityConflict)
    ensures call.context.decisions.Some? && call.context.config.Some?
    ensures var edges := EdgeSet(AutoEdges(call.context.decisions.value)) + MatchPairs(state.cases) + {c.pair};
            if Answer(state, call) == Err(HumanContradiction)
            then p in NoMatchPairs(state.cases) && Connected(edges, p.a, p.b)
            else && p in call.context.config.value.severe
                 && Connected(edges, c.pair.a, p.a) && Connected(edges, c.pair.a, p.b)
  {
    FoundIsTheCase(state.cases, c);
    var ids, auto := call.context.records.value, AutoEdges(call.context.decisions.value);
    var severe := call.context.config.value.severe;
    if Answer(state, call) == Err(HumanContradiction) {
      p := ContradictionNeedsANoMatch(c.pair, ids, auto, severe, state.cases, {}, {});
      assert JoiningEdges(c.pair, auto, state.cases, {}) == EdgeSet(auto) + MatchPairs(state.cases) + {c.pair};
    } else {
      p := SevereConflictNeedsASeverePair(c.pair, ids, auto, severe, state.cases, {}, {});
    }
  }
}
