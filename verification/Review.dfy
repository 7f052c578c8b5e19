/** Review cases, the audit trail, and the human decisions an outcome has recorded. */
module Review {
  import opened Results
  import opened Records
  import opened Resolution

  type CaseId = string

  datatype HumanDecision = DecideMatch | DecideNoMatch | Defer

  datatype ReviewStatus = Pending | Matched | NotMatched | Deferred

  datatype DownstreamAction = EligibleForMerge | NoMatchRecorded | RemainExcluded

  datatype ReviewResolution = ReviewResolution(
    caseId: CaseId, decision: HumanDecision, reviewer: Option<string>, sequence: int,
    machineDecision: MatchDecisionType, machineReason: string, downstream: DownstreamAction)

  datatype AuditEntry = AuditEntry(
    caseId: CaseId, a: RecordId, b: RecordId, machineDecision: MatchDecisionType, machineReason: string,
    decision: HumanDecision, reviewer: Option<string>, sequence: int, downstream: DownstreamAction)

  datatype ReviewCase = ReviewCase(
    id: CaseId, pair: Pair, machineDecision: MatchDecisionType, machineReason: string,
    status: ReviewStatus, resolution: Option<ReviewResolution>)

  datatype WorkflowState = WorkflowState(cases: seq<ReviewCase>, auditTrail: seq<AuditEntry>, nextSequence: int)

  function StatusFor(decision: HumanDecision): ReviewStatus {
    match decision
    case DecideMatch => Matched
    case DecideNoMatch => NotMatched
    case Defer => Deferred
  }

  function ActionFor(decision: HumanDecision): DownstreamAction {
    match decision
    case DecideMatch => EligibleForMerge
    case DecideNoMatch => NoMatchRecorded
    case Defer => RemainExcluded
  }

  /** The recorded MATCH pairs of an outcome. */
  function MatchPairs(cases: seq<ReviewCase>): set<Pair> {
    set c | c in cases && c.status.Matched? && c.resolution.Some? :: c.pair
  }

  /** The recorded NO_MATCH pairs of an outcome. */
  function NoMatchPairs(cases: seq<ReviewCase>): set<Pair> {
    set c | c in cases && c.status.NotMatched? && c.resolution.Some? :: c.pair
  }

  /** The record map holds both records of every case. */
  predicate CasesCovered(cases: seq<ReviewCase>, ids: set<RecordId>) {
    forall i :: 0 <= i < |cases| ==> Inside(cases[i].pair, ids)
  }
}
