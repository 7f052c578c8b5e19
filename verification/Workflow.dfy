/** The review workflow: PENDING cases resolved one at a time, an append-only audit trail, a sequence counter. */
module Workflow {
  import opened Results
  import opened Records
  import opened Partitions
  import opened Resolution
  import opened Review
  import opened Constraints
  import opened Authorization

  datatype ReviewError =
    | CaseNotFound
    | InvalidTransition
    | ContextMissing
    | HumanContradiction
    | SevereIdentityConflict
    | RecordMissing
    | StaleVersion
    | HistoryIntegrity
    | ConfigUnavailable
    | SnapshotMalformed
    | BundleIntegrity

  /** The entity-resolution material a MATCH is authorized against, as far as the caller supplied it. */
  datatype AuthContext = AuthContext(
    decisions: Option<seq<MatchDecision>>, records: Option<set<RecordId>>, config: Option<Config>)

  const NO_CONTEXT := AuthContext(None, None, None)

  /** The first case with this id. */
  function FindCase(cases: seq<ReviewCase>, id: CaseId): (r: Option<ReviewCase>)
    ensures r.Some? ==> r.value in cases && r.value.id == id
    ensures r.None? ==> forall c :: c in cases ==> c.id != id
  {
    if cases == [] then None
    else if cases[0].id == id then Some(cases[0])
    else FindCase(cases[1..], id)
  }

  function ReplaceCase(cases: seq<ReviewCase>, updated: ReviewCase): (r: seq<ReviewCase>)
    ensures |r| == |cases|
    ensures forall i :: 0 <= i < |r| ==> r[i] == if cases[i].id == updated.id then updated else cases[i]
  {
    seq(|cases|, i requires 0 <= i < |cases| => if cases[i].id == updated.id then updated else cases[i])
  }

  /** What a resolved case says about its own resolution. */
  function EntryOf(c: ReviewCase): AuditEntry
    requires c.resolution.Some?
  {
    var r := c.resolution.value;
    AuditEntry(c.id, c.pair.a, c.pair.b, c.machineDecision, c.machineReason, r.decision, r.reviewer, r.sequence, r.downstream)
  }

  predicate UniqueIds(cases: seq<ReviewCase>) {
    forall i, j :: 0 <= i < j < |cases| ==> cases[i].id != cases[j].id
  }

  function ErrorOf(verdict: Verdict): ReviewError
    requires !verdict.Authorized?
  {
    match verdict
    case Contradiction => HumanContradiction
    case MissingRecord => RecordMissing
    case SevereConflict => SevereIdentityConflict
  }

  lemma SameIdSameCase(cases: seq<ReviewCase>, c: ReviewCase, d: ReviewCase)
    requires UniqueIds(cases) && c in cases && d in cases
    ensures c.id == d.id ==> c == d
  {
  }

  /** What stands in the way of a MATCH on this pending case, if anything. */
  ghost function MatchRefusal(cases: seq<ReviewCase>, c: ReviewCase, context: AuthContext): Option<ReviewError> {
    if context.decisions.None? || context.records.None? || context.records.value == {} || context.config.None?
    then Some(ContextMissing)
    else if !Inside(c.pair, context.records.value) then Some(ContextMissing)
    else
      var verdict := BoundaryVerdict(
        c.pair, context.records.value, AutoEdges(context.decisions.value), context.config.value.severe, cases, {}, {});
      if verdict.Authorized? then None else Some(ErrorOf(verdict))
  }

  /** The case once decided. */
  function Decided(c: ReviewCase, decision: HumanDecision, reviewer: Option<string>, sequence: int): ReviewCase {
    c.(status := StatusFor(decision),
       resolution := Some(ReviewResolution(
         c.id, decision, reviewer, sequence, c.machineDecision, c.machineReason, ActionFor(decision))))
  }

  /** The state after an accepted decision. */
  function Recorded(state: WorkflowState, c: ReviewCase, decision: HumanDecision, reviewer: Option<string>): WorkflowState {
    var updated := Decided(c, decision, reviewer, state.nextSequence);
    WorkflowState(ReplaceCase(state.cases, updated), state.auditTrail + [EntryOf(updated)], state.nextSequence + 1)
  }

  /** One call: refused with a reason, or the next state. */
  ghost function Resolved(
    state: WorkflowState, id: CaseId, decision: HumanDecision, reviewer: Option<string>, context: AuthContext)
    : Result<WorkflowState, ReviewError>
  {
    var found := FindCase(state.cases, id);
    if found.None? then Err(CaseNotFound)
    else if !found.value.status.Pending? then Err(InvalidTransition)
    else
      var refusal := if decision.DecideMatch? then MatchRefusal(state.cases, found.value, context) else None;
      if refusal.Some? then Err(refusal.value) else Ok(Recorded(state, found.value, decision, reviewer))
  }

  /** The authorization a MATCH needs: full context, both reviewed records known, then the boundary. */
  method CheckMatch(cases: seq<ReviewCase>, c: ReviewCase, context: AuthContext) returns (refusal: Option<ReviewError>)
    ensures refusal == MatchRefusal(cases, c, context)
  {
    if context.decisions.None? || context.records.None? || context.records.value == {} || context.config.None? {
      return Some(ContextMissing);
    }
    if c.pair.a !in context.records.value || c.pair.b !in context.records.value {
      return Some(ContextMissing);
    }
    var verdict := AuthorizeHumanMatch(
      c.pair, cases, context.decisions.value, context.records.value, context.config.value, {}, {});
    refusal := if verdict.Authorized? then None else Some(ErrorOf(verdict));
  }

  class ReviewWorkflow {
    var state: WorkflowState

    constructor (initial: WorkflowState)
      ensures state == initial
    {
      state := initial;
    }

    method GetCase(id: CaseId) returns (r: Result<ReviewCase, ReviewError>)
      ensures r == if FindCase(state.cases, id).None? then Err(CaseNotFound) else Ok(FindCase(state.cases, id).value)
    {
      var i := 0;
      while i < |state.cases|
        invariant i <= |state.cases| && FindCase(state.cases, id) == FindCase(state.cases[i..], id)
      {
        if state.cases[i].id == id {
          return Ok(state.cases[i]);
        }
        assert state.cases[i..][1..] == state.cases[i + 1..];
        i := i + 1;
      }
      r := Err(CaseNotFound);
    }

    /** Resolves one PENDING case, or refuses and leaves the state as it was. */
    method ResolveCase(id: CaseId, decision: HumanDecision, reviewer: Option<string>, context: AuthContext)
      returns (r: Result<WorkflowState, ReviewError>)
      modifies this
      ensures r == Resolved(old(state), id, decision, reviewer, context)
      ensures state == if r.Ok? then r.value else old(state)
    {
      var found := GetCase(id);
      if found.Err? {
        return Err(found.error);
      }
      var c := found.value;
      if !c.status.Pending? {
        return Err(InvalidTransition);
      }
      if decision.DecideMatch? {
        var refusal := CheckMatch(state.cases, c, context);
        if refusal.Some? {
          return Err(refusal.value);
        }
      }
      var resolution := ReviewResolution(
        c.id, decision, reviewer, state.nextSequence, c.machineDecision, c.machineReason, ActionFor(decision));
      var updated := c.(status := StatusFor(decision), resolution := Some(resolution));
      var entry := AuditEntry(
        c.id, c.pair.a, c.pair.b, c.machineDecision, c.machineReason, decision, reviewer,
        resolution.sequence, resolution.downstream);
      assert entry == EntryOf(updated) && updated == Decided(c, decision, reviewer, state.nextSequence);
      var next := WorkflowState(ReplaceCase(state.cases, updated), state.auditTrail + [entry], state.nextSequence + 1);
      assert next == Recorded(state, c, decision, reviewer);
      state := next;
      r := Ok(next);
    }
  }
}
