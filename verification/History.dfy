/** Stored cases, stored events, and the audit trail rebuilt from the two together. */
module History {
  import opened Results
  import opened Sorting
  import opened Records
  import opened Resolution
  import opened Review
  import opened Workflow

  datatype EventType = CaseCreated | SuggestionRecorded | MatchEvent | NoMatchEvent | DeferredEvent

  /** One append-only history row. */
  datatype ReviewEvent = ReviewEvent(
    caseId: CaseId, eventType: EventType, occurredAt: string, sequence: Option<int>, reviewer: Option<string>,
    payload: Option<AuditEntry>, suggestionId: Option<string>)
  {
    predicate IsResolution() {
      eventType.MatchEvent? || eventType.NoMatchEvent? || eventType.DeferredEvent?
    }

    /** The checks made when an event is built: a resolution event carries the audit entry it projects,
        and no other event carries anything of a resolution. */
    predicate Valid() {
      if IsResolution() then
        && sequence.Some? && sequence.value >= 1 && suggestionId.None?
        && payload.Some? && payload.value.caseId == caseId && payload.value.sequence == sequence.value
        && EventTypeFor(payload.value.decision) == eventType
      else if eventType.SuggestionRecorded? then
        suggestionId.Some? && sequence.None? && payload.None? && reviewer.None?
      else
        sequence.None? && payload.None? && suggestionId.None? && reviewer.None?
    }
  }

  function EventTypeFor(decision: HumanDecision): EventType {
    match decision
    case DecideMatch => MatchEvent
    case DecideNoMatch => NoMatchEvent
    case Defer => DeferredEvent
  }

  /** The status a case must stand at to agree with a resolution event. */
  predicate StatusAgrees(status: ReviewStatus, eventType: EventType) {
    match status
    case Pending => false
    case Matched => eventType.MatchEvent?
    case NotMatched => eventType.NoMatchEvent?
    case Deferred => eventType.DeferredEvent?
  }

  /** The one way a resolution event is made: from the audit entry the workflow appended. */
  function EventFrom(entry: AuditEntry, occurredAt: string): (e: ReviewEvent)
    ensures e.IsResolution()
    ensures entry.sequence >= 1 ==> e.Valid()
  {
    ReviewEvent(entry.caseId, EventTypeFor(entry.decision), occurredAt, Some(entry.sequence), entry.reviewer,
                Some(entry), None)
  }

  const INITIAL_CASE_VERSION := 1

  datatype PersistedCase = PersistedCase(reviewCase: ReviewCase, version: int, createdAt: string, updatedAt: string) {
    /** The row after a resolution: the version moves by one, the creation stamp stays. */
    function WithCase(resolved: ReviewCase, now: string): PersistedCase
      requires resolved.id == reviewCase.id
    {
      PersistedCase(resolved, version + 1, createdAt, now)
    }
  }

  function CasesOf(persisted: seq<PersistedCase>): (r: seq<ReviewCase>)
    ensures |r| == |persisted| && forall i :: 0 <= i < |r| ==> r[i] == persisted[i].reviewCase
  {
    seq(|persisted|, i requires 0 <= i < |persisted| => persisted[i].reviewCase)
  }

  datatype ReconstructedHistory = ReconstructedHistory(entries: seq<AuditEntry>, nextSequence: int)

  type EventIndex = map<CaseId, ReviewEvent>

  predicate Agrees(e: ReviewEvent, c: ReviewCase) {
    && StatusAgrees(c.status, e.eventType)
    && c.resolution.Some?
    && e.sequence == Some(c.resolution.value.sequence)
    && c.resolution.value.reviewer == e.reviewer
    && EventTypeFor(c.resolution.value.decision) == e.eventType
  }

  /** One more event indexed, or rejected as an impossible arrangement. */
  function IndexEvent(cases: seq<ReviewCase>, indexed: EventIndex, e: ReviewEvent): Result<EventIndex, ReviewError> {
    var found := FindCase(cases, e.caseId);
    if !e.IsResolution() then Ok(indexed)
    else if found.None? || e.caseId in indexed || !Agrees(e, found.value) then Err(HistoryIntegrity)
    else Ok(indexed[e.caseId := e])
  }

  function IndexEvents(cases: seq<ReviewCase>, events: seq<ReviewEvent>): Result<EventIndex, ReviewError> {
    if events == [] then Ok(map[]) else
      var front := IndexEvents(cases, events[..|events| - 1]);
      if front.Err? then front else IndexEvent(cases, front.value, events[|events| - 1])
  }

  function EntryFromCase(c: ReviewCase): Result<AuditEntry, ReviewError> {
    if c.resolution.None? then Err(HistoryIntegrity) else Ok(EntryOf(c))
  }

  function EntryFromEvent(e: ReviewEvent, c: ReviewCase): Result<AuditEntry, ReviewError> {
    if e.payload.None? || e.payload.value.a != c.pair.a || e.payload.value.b != c.pair.b
    then Err(HistoryIntegrity) else Ok(e.payload.value)
  }

  function EntryFor(c: ReviewCase, indexed: EventIndex): Result<AuditEntry, ReviewError> {
    if c.id in indexed then EntryFromEvent(indexed[c.id], c) else EntryFromCase(c)
  }

  /** The entries of the resolved cases, in case order. */
  function CollectEntries(cases: seq<ReviewCase>, indexed: EventIndex): Result<seq<AuditEntry>, ReviewError> {
    if cases == [] then Ok([]) else
      var front, c := CollectEntries(cases[..|cases| - 1], indexed), cases[|cases| - 1];
      if front.Err? || c.status.Pending? then front
      else
        var entry := EntryFor(c, indexed);
        if entry.Err? then Err(entry.error) else Ok(front.value + [entry.value])
  }

  predicate InSequence(entry: AuditEntry, later: AuditEntry) {
    entry.sequence <= later.sequence
  }

  function SortBySequence(entries: seq<AuditEntry>): seq<AuditEntry> {
    StableSort(entries, InSequence)
  }

  predicate Contiguous(entries: seq<AuditEntry>) {
    forall i :: 0 <= i < |entries| ==> entries[i].sequence == i + 1
  }

  function Reconstructed(cases: seq<ReviewCase>, events: seq<ReviewEvent>): Result<ReconstructedHistory, ReviewError> {
    var indexed := IndexEvents(cases, events);
    if indexed.Err? then Err(indexed.error) else
      var entries := CollectEntries(cases, indexed.value);
      if entries.Err? then Err(entries.error) else
        var sorted := SortBySequence(entries.value);
        if Contiguous(sorted) then Ok(ReconstructedHistory(sorted, |sorted| + 1)) else Err(HistoryIntegrity)
  }

  // ---- the loops -----------------------------------------------------------------------------------------------------

  method ResolutionEventsByCase(events: seq<ReviewEvent>, cases: seq<ReviewCase>)
    returns (r: Result<EventIndex, ReviewError>)
    ensures r == IndexEvents(cases, events)
  {
    var indexed: EventIndex := map[];
    var n := 0;
    while n < |events|
      invariant n <= |events| && IndexEvents(cases, events[..n]) == Ok(indexed)
    {
      var e := events[n];
      assert events[..n + 1][..n] == events[..n];
      n := n + 1;
      if !e.IsResolution() {
        continue;
      }
      var found := FindCase(cases, e.caseId);
      if found.None? || e.caseId in indexed || !Agrees(e, found.value) {
        IndexErrorStays(cases, events, n);
        return Err(HistoryIntegrity);
      }
      indexed := indexed[e.caseId := e];
    }
    assert events[..n] == events;
    r := Ok(indexed);
  }

  lemma {:induction false} IndexErrorStays(cases: seq<ReviewCase>, events: seq<ReviewEvent>, n: nat)
    requires n <= |events| && IndexEvents(cases, events[..n]) == Err(HistoryIntegrity)
    ensures IndexEvents(cases, events) == Err(HistoryIntegrity)
    decreases |events|
  {
    if n == |events| {
      assert events[..n] == events;
    } else {
      assert events[..|events| - 1][..n] == events[..n];
      IndexErrorStays(cases, events[..|events| - 1], n);
    }
  }

  lemma {:induction false} CollectErrorStays(cases: seq<ReviewCase>, indexed: EventIndex, n: nat)
    requires n <= |cases| && CollectEntries(cases[..n], indexed) == Err(HistoryIntegrity)
    ensures CollectEntries(cases, indexed) == Err(HistoryIntegrity)
    decreases |cases|
  {
    if n == |cases| {
      assert cases[..n] == cases;
    } else {
      assert cases[..|cases| - 1][..n] == cases[..n];
      CollectErrorStays(cases[..|cases| - 1], indexed, n);
    }
  }

  method CollectResolved(cases: seq<ReviewCase>, indexed: EventIndex) returns (r: Result<seq<AuditEntry>, ReviewError>)
    ensures r == CollectEntries(cases, indexed)
  {
    var entries: seq<AuditEntry> := [];
    var n := 0;
    while n < |cases|
      invariant n <= |cases| && CollectEntries(cases[..n], indexed) == Ok(entries)
    {
      var c := cases[n];
      assert cases[..n + 1][..n] == cases[..n];
      n := n + 1;
      if c.status.Pending? {
        continue;
      }
      var entry := if c.id in indexed then EntryFromEvent(indexed[c.id], c) else EntryFromCase(c);
      if entry.Err? {
        CollectErrorStays(cases, indexed, n);
        return Err(HistoryIntegrity);
      }
      entries := entries + [entry.value];
    }
    assert cases[..n] == cases;
    r := Ok(entries);
  }

  /** Rebuilds the audit trail from cases and resolution events together, failing closed when they disagree. */
  method ReconstructHistory(persisted: seq<PersistedCase>, events: seq<ReviewEvent>)
    returns (r: Result<ReconstructedHistory, ReviewError>)
    requires UniqueIds(CasesOf(persisted))
    ensures r == Reconstructed(CasesOf(persisted), events)
  {
    var cases := CasesOf(persisted);
    var indexed := ResolutionEventsByCase(events, cases);
    if indexed.Err? {
      return Err(indexed.error);
    }
    var entries := CollectResolved(cases, indexed.value);
    if entries.Err? {
      return Err(entries.error);
    }
    var sorted := SortBySequence(entries.value);
    var position := 0;
    while position < |sorted|
      invariant position <= |sorted| && forall i :: 0 <= i < position ==> sorted[i].sequence == i + 1
    {
      if sorted[position].sequence != position + 1 {
        return Err(HistoryIntegrity);
      }
      position := position + 1;
    }
    r := Ok(ReconstructedHistory(sorted, |sorted| + 1));
  }
}
