/** What the durable queue answers and what it writes: which calls it accepts, which error a refused one gets, and the
    stamps an accepted one leaves. */
module ServiceAnswers {
  import opened Results
  import opened Records
  import opened Resolution
  import opened Review
  import opened Authorization
  import opened Workflow
  import opened WorkflowRuns
  import opened Answers
  import opened History
  import opened HistoryLaw
  import opened Reporting
  import opened Service
  import P = ServiceProofs

  // ---- which queues load ---------------------------------------------------------------------------------------------

  /** A queue loads exactly when its cases and events tell one story and its records cover its cases; otherwise every call
      on it is refused, for the history first. */
  lemma LoadsExactlyWhen(store: QueueStore, visit: P.Visit)
    requires WellStored(store) && forall e :: e in store.events ==> e.Valid()
    ensures var tells, covered := Consistent(CasesOf(store.cases), store.events), CasesCovered(CasesOf(store.cases), store.records);
            && (LoadBundle(store).Ok? <==> tells && covered)
            && (!tells ==> Serviced(store, visit.request, visit.config, visit.now) == Err(HistoryIntegrity))
            && (tells && !covered ==> Serviced(store, visit.request, visit.config, visit.now) == Err(BundleIntegrity))
  {
    ReconstructsExactlyWhen(CasesOf(store.cases), store.events);
  }

  // ---- which calls are accepted ----------------------------------------------------------------------------------

  /** The stored row of a requested case. */
  predicate IsRow(store: QueueStore, id: CaseId, row: PersistedCase) {
    row in store.cases && row.reviewCase.id == id
  }

  lemma FoundIsTheRow(store: QueueStore, id: CaseId, row: PersistedCase)
    requires WellStored(store) && IsRow(store, id, row)
    ensures FindPersisted(store.cases, id) == Some(row)
    ensures row.reviewCase in CasesOf(store.cases)
  {
    var cases := CasesOf(store.cases);
    var i :| 0 <= i < |store.cases| && store.cases[i] == row;
    assert cases[i] == row.reviewCase;
    P.PersistedMirrorsCases(store.cases, id);
    FoundIsTheCase(cases, row.reviewCase);
    var found := FindPersisted(store.cases, id).value;
    var j :| 0 <= j < |store.cases| && store.cases[j] == found;
    assert cases[j].id == cases[i].id;
  }

  /** What a MATCH is authorized against: the stored edges and records, and the configuration found. */
  function MatchContext(store: QueueStore, config: ConfigOutcome): AuthContext
    requires WellStored(store) && AllPairs(store.snapshot) && config.Ok?
  {
    RebuiltIsTheSnapshot(store.snapshot);
    AuthContext(Some(Rebuilt(store.snapshot).value), Some(store.records), config.value)
  }

  /** The config lookup gave a configuration, the stored snapshot holds pairs only, and recording the MATCH on the
      records of the queue leaves its pair clean. */
  ghost predicate MatchIsClean(store: QueueStore, c: ReviewCase, config: ConfigOutcome)
    requires WellStored(store) && Inside(c.pair, store.records)
  {
    AllPairs(store.snapshot) && config.Ok? && config.value.Some? &&
    LeavesClean(CasesOf(store.cases), c, MatchContext(store, config))
  }

  lemma RowIsCovered(store: QueueStore, id: CaseId, row: PersistedCase)
    requires CasesCovered(CasesOf(store.cases), store.records) && IsRow(store, id, row)
    ensures Inside(row.reviewCase.pair, store.records)
  {
    var i :| 0 <= i < |store.cases| && store.cases[i] == row;
    assert CasesOf(store.cases)[i] == row.reviewCase;
  }

  /** What a call that names the current version of a case comes to. */
  lemma CurrentVersionIsDecided(store: QueueStore, trail: seq<AuditEntry>, visit: P.Visit, row: PersistedCase)
    requires P.StoresTrail(store, trail) && IsRow(store, visit.request.id, row)
    requires row.version == visit.request.expectedVersion
    ensures ContextFor(store, visit.request.decision, visit.config).Ok? ==>
              (P.Accepts(store, visit) <==> Accepts(P.StateWith(store, trail), P.CallOf(store, visit)))
    ensures !P.Accepts(store, visit) ==>
              Serviced(store, visit.request, visit.config, visit.now).error ==
                var context := ContextFor(store, visit.request.decision, visit.config);
                if context.Err? then context.error else Answer(P.StateWith(store, trail), P.CallOf(store, visit)).error
  {
    P.LoadedIsStored(store, trail);
    P.OneVisit(store, trail, visit);
    FoundIsTheRow(store, visit.request.id, row);
    var decided := Decide(store, visit.request, visit.config);
    if decided.Ok? {
      P.AcceptedIsWritten(store, trail, visit.request, row.reviewCase, visit.now);
    }
  }

  /** The acceptance law of the queue. On every store the service can reach, a NO_MATCH or a DEFER is accepted exactly
      when the case is PENDING and the reviewer saw its first version, whatever the snapshot and the config lookup
      answer; a MATCH exactly when, besides, it is clean. */
  lemma AcceptedExactlyWhen(store: QueueStore, trail: seq<AuditEntry>, visit: P.Visit)
    requires P.StoresTrail(store, trail)
    ensures P.Accepts(store, visit) <==>
            exists row :: IsRow(store, visit.request.id, row) && Acceptable(store, row.reviewCase, visit)
  {
    P.OneVisit(store, trail, visit);
    forall row | IsRow(store, visit.request.id, row)
      ensures P.Accepts(store, visit) <==> Acceptable(store, row.reviewCase, visit)
    {
      RowIsAcceptedExactlyWhen(store, trail, visit, row);
    }
    if P.Accepts(store, visit) {
      assert IsRow(store, visit.request.id, FindPersisted(store.cases, visit.request.id).value);
    }
  }

  ghost predicate Acceptable(store: QueueStore, c: ReviewCase, visit: P.Visit)
    requires WellStored(store)
  {
    && c.status.Pending? && visit.request.expectedVersion == 1
    && (visit.request.decision.DecideMatch? ==> Inside(c.pair, store.records) && MatchIsClean(store, c, visit.config))
  }

  lemma RowIsAcceptedExactlyWhen(store: QueueStore, trail: seq<AuditEntry>, visit: P.Visit, row: PersistedCase)
    requires P.StoresTrail(store, trail) && IsRow(store, visit.request.id, row)
    ensures P.Accepts(store, visit) <==> Acceptable(store, row.reviewCase, visit)
  {
    P.OneVisit(store, trail, visit);
    FoundIsTheRow(store, visit.request.id, row);
    RowIsCovered(store, visit.request.id, row);
    assert P.Versioned(row);
    if row.version == visit.request.expectedVersion {
      if visit.request.decision.DecideMatch? {
        MatchIsCleanOnTheQueue(store, row.reviewCase, visit);
      }
      CurrentVersionIsDecided(store, trail, visit, row);
      CaseIsAcceptedExactlyWhen(P.StateWith(store, trail), P.CallOf(store, visit), row.reviewCase);
    }
  }

  /** The context of a MATCH can be assembled exactly when the snapshot holds pairs only and the lookup did not fail. */
  lemma ContextOfMatch(store: QueueStore, visit: P.Visit)
    requires WellStored(store) && visit.request.decision.DecideMatch?
    ensures ContextFor(store, visit.request.decision, visit.config).Ok? <==> AllPairs(store.snapshot) && visit.config.Ok?
    ensures AllPairs(store.snapshot) && visit.config.Ok? ==> P.CallOf(store, visit).context == MatchContext(store, visit.config)
  {
    RebuiltIsTheSnapshot(store.snapshot);
  }

  lemma ContextFits(store: QueueStore, c: ReviewCase, config: ConfigOutcome)
    requires WellStored(store) && Inside(c.pair, store.records) && AllPairs(store.snapshot) && config.Ok?
    ensures FitsMatch(c, MatchContext(store, config)) <==> config.value.Some?
  {
  }

  /** A clean MATCH is one whose context can be assembled, fits the case and leaves it clean. */
  lemma MatchIsCleanOnTheQueue(store: QueueStore, c: ReviewCase, visit: P.Visit)
    requires WellStored(store) && Inside(c.pair, store.records) && visit.request.decision.DecideMatch?
    ensures MatchIsClean(store, c, visit.config) <==>
              && ContextFor(store, visit.request.decision, visit.config).Ok?
              && FitsMatch(c, P.CallOf(store, visit).context)
              && LeavesClean(CasesOf(store.cases), c, P.CallOf(store, visit).context)
  {
    ContextOfMatch(store, visit);
    if AllPairs(store.snapshot) && visit.config.Ok? {
      ContextFits(store, c, visit.config);
    }
  }

  lemma CaseIsAcceptedExactlyWhen(state: WorkflowState, call: Call, c: ReviewCase)
    requires UniqueIds(state.cases) && c in state.cases && c.id == call.id
    ensures Accepts(state, call) <==>
            c.status.Pending? && (call.decision.DecideMatch? ==>
              FitsMatch(c, call.context) && LeavesClean(state.cases, c, call.context))
  {
    Answers.AcceptedExactlyWhen(state, call);
    forall d | d in state.cases && d.id == call.id
      ensures d == c
    {
      SameIdSameCase(state.cases, c, d);
    }
  }

  /** Which error a refused call gets, in the order the checks are made: an unknown case, a stale version, for a MATCH
      a snapshot or a configuration that cannot be read, and then what the workflow answers. */
  lemma RefusedExactlyWhen(store: QueueStore, trail: seq<AuditEntry>, visit: P.Visit)
    requires P.StoresTrail(store, trail)
    ensures var answer := Serviced(store, visit.request, visit.config, visit.now);
            var isMatch := visit.request.decision.DecideMatch?;
            && ((forall row :: !IsRow(store, visit.request.id, row)) ==> answer == Err(CaseNotFound))
            && (forall row :: IsRow(store, visit.request.id, row) ==>
                  && (row.version != visit.request.expectedVersion ==> answer == Err(StaleVersion))
                  && (row.version == visit.request.expectedVersion ==>
                        && (isMatch && !AllPairs(store.snapshot) ==> answer == Err(SnapshotMalformed))
                        && (isMatch && AllPairs(store.snapshot) && visit.config.Err? ==> answer == Err(visit.config.error))
                        && ((isMatch ==> AllPairs(store.snapshot) && visit.config.Ok?) && answer.Err? ==>
                              && Answer(P.StateWith(store, trail), P.CallOf(store, visit)).Err?
                              && answer.error == Answer(P.StateWith(store, trail), P.CallOf(store, visit)).error)))
  {
    P.LoadedIsStored(store, trail);
    var found := FindPersisted(store.cases, visit.request.id);
    if found.Some? {
      assert IsRow(store, visit.request.id, found.value);
    }
    forall row | IsRow(store, visit.request.id, row)
      ensures found == Some(row)
    {
      FoundIsTheRow(store, visit.request.id, row);
    }
    RebuiltIsTheSnapshot(store.snapshot);
    if found.Some? && found.value.version == visit.request.expectedVersion {
      CurrentVersionIsDecided(store, trail, visit, found.value);
    }
  }

  /** A MATCH the queue takes to the workflow is authorized against the stored edges, records and configuration. */
  lemma MatchIsJudgedOnTheQueue(store: QueueStore, visit: P.Visit)
    requires WellStored(store) && visit.request.decision.DecideMatch? && AllPairs(store.snapshot) && visit.config.Ok?
    ensures var context := P.CallOf(store, visit).context;
            && context.records == Some(store.records) && context.config == visit.config.value
            && context.decisions.Some? && EdgesTell(AutoEdges(context.decisions.value), store.snapshot)
  {
    RebuiltIsTheSnapshot(store.snapshot);
  }

  // ---- what an accepted call writes -------------------------------------------------------------------------------

  /** The event of entry `n`: this call's, stamped with its clock. */
  predicate EventTells(e: ReviewEvent, visit: P.Visit, n: int) {
    e.caseId == visit.request.id && e.occurredAt == visit.now && e.reviewer == visit.request.reviewer &&
    e.sequence == Some(n) && (e.eventType.MatchEvent? <==> visit.request.decision.DecideMatch?) &&
    (e.eventType.NoMatchEvent? <==> visit.request.decision.DecideNoMatch?) &&
    (e.eventType.DeferredEvent? <==> visit.request.decision.Defer?)
  }

  /** The row of the decided case moves one version on, keeps its creation stamp and takes the clock of the call; every
      other row stays. */
  predicate RowAfter(before: PersistedCase, after: PersistedCase, visit: P.Visit, call: Call, n: int) {
    if before.reviewCase.id != visit.request.id then after == before
    else
      after.version == before.version + 1 && after.createdAt == before.createdAt && after.updatedAt == visit.now &&
      DecidedBy(before.reviewCase, after.reviewCase, call, n)
  }

  /** No event of this case records a decision of this kind under this number. */
  ghost predicate NothingRecords(events: seq<ReviewEvent>, entry: AuditEntry) {
    forall e :: e in events && e.IsResolution() && e.caseId == entry.caseId ==>
      e.sequence != Some(entry.sequence) || e.eventType != EventTypeFor(entry.decision)
  }

  lemma {:induction false} NothingRecordsExactlyWhen(events: seq<ReviewEvent>, entry: AuditEntry, now: string)
    ensures CountWritten(events, EventFrom(entry, now)) == 0 <==> NothingRecords(events, entry)
    decreases |events|
  {
    if events != [] {
      NothingRecordsExactlyWhen(events[..|events| - 1], entry, now);
      assert forall e :: e in events <==> e in events[..|events| - 1] || e == events[|events| - 1];
    }
  }

  lemma CountedOnceMore(events: seq<ReviewEvent>, entry: AuditEntry, now: string)
    ensures CountWritten(events + [EventFrom(entry, now)], EventFrom(entry, now))
            == CountWritten(events, EventFrom(entry, now)) + 1
  {
    assert (events + [EventFrom(entry, now)])[..|events|] == events;
  }

  /** The write on its own, on any store: it goes through exactly when the workflow's last entry is of the requested case,
      the stored row is at the version the reviewer saw, and no stored event already records that decision. */
  lemma WritesExactlyWhen(store: QueueStore, request: Request, state: WorkflowState, now: string, row: PersistedCase)
    requires WellStored(store) && IsRow(store, request.id, row) && FindCase(state.cases, request.id).Some?
    ensures Write(store, request, state, now).Ok? <==>
            && state.auditTrail != []
            && var entry := state.auditTrail[|state.auditTrail| - 1];
               entry.caseId == request.id && row.version == request.expectedVersion && NothingRecords(store.events, entry)
  {
    FoundIsTheRow(store, request.id, row);
    if state.auditTrail != [] {
      var entry := state.auditTrail[|state.auditTrail| - 1];
      NothingRecordsExactlyWhen(store.events, entry, now);
      CountedOnceMore(store.events, entry, now);
    }
  }

  lemma WriteAppends(store: QueueStore, request: Request, state: WorkflowState, now: string)
    requires Write(store, request, state, now).Ok?
    ensures var written, trail := Write(store, request, state, now).value, state.auditTrail;
            && trail != [] && written.events == store.events + [EventFrom(trail[|trail| - 1], now)]
            && FindCase(state.cases, request.id).Some?
            && written.cases == UpdateRows(store.cases, FindCase(state.cases, request.id).value, now)
  {
  }

  lemma EntryBecomesEvent(entry: AuditEntry, call: Call, n: int, cases: seq<ReviewCase>, visit: P.Visit)
    requires Tells(entry, call, n, cases) && call.id == visit.request.id
    requires call.decision == visit.request.decision && call.reviewer == visit.request.reviewer
    ensures EventTells(EventFrom(entry, visit.now), visit, n)
  {
  }

  lemma AcceptedVisitWrites(store: QueueStore, trail: seq<AuditEntry>, visit: P.Visit) returns (event: ReviewEvent)
    requires P.StoresTrail(store, trail) && P.Accepts(store, visit)
    ensures P.After(store, visit).events == store.events + [event] && EventTells(event, visit, |trail| + 1)
    ensures |P.After(store, visit).cases| == |store.cases|
    ensures forall i :: 0 <= i < |store.cases| ==>
              RowAfter(store.cases[i], P.After(store, visit).cases[i], visit, P.CallOf(store, visit), |trail| + 1)
  {
    var call, state, after := P.CallOf(store, visit), P.StateWith(store, trail), P.After(store, visit);
    event := EventIsWritten(store, trail, visit);
    forall i | 0 <= i < |store.cases|
      ensures RowAfter(store.cases[i], after.cases[i], visit, call, |trail| + 1)
    {
      RowIsWritten(store, trail, visit, i);
    }
  }

  lemma DecidedState(store: QueueStore, trail: seq<AuditEntry>, visit: P.Visit)
    requires P.StoresTrail(store, trail) && P.Accepts(store, visit)
    ensures var call, state := P.CallOf(store, visit), P.StateWith(store, trail);
            && Accepts(state, call) && UniqueIds(state.cases)
            && Decide(store, visit.request, visit.config) == Ok(Next(state, call))
            && Write(store, visit.request, Next(state, call), visit.now) == Ok(P.After(store, visit))
            && CasesOf(P.After(store, visit).cases) == Next(state, call).cases
  {
    P.OneVisit(store, trail, visit);
    P.LoadedIsStored(store, trail);
  }

  lemma EventIsWritten(store: QueueStore, trail: seq<AuditEntry>, visit: P.Visit) returns (event: ReviewEvent)
    requires P.StoresTrail(store, trail) && P.Accepts(store, visit)
    ensures P.After(store, visit).events == store.events + [event] && EventTells(event, visit, |trail| + 1)
    ensures |P.After(store, visit).cases| == |store.cases|
  {
    var call, state := P.CallOf(store, visit), P.StateWith(store, trail);
    DecidedState(store, trail, visit);
    WriteAppends(store, visit.request, Next(state, call), visit.now);
    AcceptedCallRecordsItself(state, call);
    var entry :| Next(state, call).auditTrail == trail + [entry] && Tells(entry, call, |trail| + 1, state.cases);
    EntryBecomesEvent(entry, call, |trail| + 1, state.cases, visit);
    event := EventFrom(entry, visit.now);
  }

  lemma RowIsWritten(store: QueueStore, trail: seq<AuditEntry>, visit: P.Visit, i: nat)
    requires P.StoresTrail(store, trail) && P.Accepts(store, visit) && i < |store.cases|
    ensures |P.After(store, visit).cases| == |store.cases|
    ensures RowAfter(store.cases[i], P.After(store, visit).cases[i], visit, P.CallOf(store, visit), |trail| + 1)
  {
    var call, state := P.CallOf(store, visit), P.StateWith(store, trail);
    DecidedState(store, trail, visit);
    WriteAppends(store, visit.request, Next(state, call), visit.now);
    AcceptedCallRecordsItself(state, call);
    assert state.cases[i] == store.cases[i].reviewCase;
    assert Next(state, call).cases[i] == P.After(store, visit).cases[i].reviewCase;
  }

  // ---- over whole runs -----------------------------------------------------------------------------------------------

  /** The law holds of whatever any run has stored. */
  lemma ReachableAcceptedExactlyWhen(store: QueueStore, visits: seq<P.Visit>, visit: P.Visit)
    requires P.Registered(store)
    ensures P.Accepts(P.ServiceRun(store, visits), visit) <==>
            exists row :: IsRow(P.ServiceRun(store, visits), visit.request.id, row) &&
                          Acceptable(P.ServiceRun(store, visits), row.reviewCase, visit)
  {
    P.RunStoresWorkflow(store, visits);
    AcceptedExactlyWhen(
      P.ServiceRun(store, visits), Run(P.StateWith(store, []), P.AcceptedCalls(store, visits)).auditTrail, visit);
  }

  /** The visits of a run that were accepted, in order. */
  ghost function AcceptedVisits(store: QueueStore, visits: seq<P.Visit>): seq<P.Visit>
    requires WellStored(store)
    decreases |visits|
  {
    if visits == [] then [] else
      var front, visit := visits[..|visits| - 1], visits[|visits| - 1];
      AcceptedVisits(store, front) + if P.Accepts(P.ServiceRun(store, front), visit) then [visit] else []
  }

  /** A row still PENDING is the row that was registered; a decided one was decided by the accepted visit its number
      names, and carries the clock of that visit. */
  predicate RowTells(first: PersistedCase, row: PersistedCase, accepted: seq<P.Visit>) {
    row.createdAt == first.createdAt && row.reviewCase.id == first.reviewCase.id &&
    if row.reviewCase.status.Pending? then row == first
    else
      row.reviewCase.resolution.Some? &&
      var r := row.reviewCase.resolution.value;
      1 <= r.sequence <= |accepted| && WasDecidedBy(row, r, accepted[r.sequence - 1])
  }

  predicate WasDecidedBy(row: PersistedCase, r: ReviewResolution, visit: P.Visit) {
    visit.request.id == row.reviewCase.id && visit.request.decision == r.decision &&
    visit.request.reviewer == r.reviewer && visit.now == row.updatedAt
  }

  /** The events added since, one an accepted visit, in order. */
  ghost predicate EventsTellVisits(first: seq<ReviewEvent>, last: seq<ReviewEvent>, accepted: seq<P.Visit>) {
    && first <= last && |last| == |first| + |accepted|
    && forall k :: 0 <= k < |accepted| ==> EventTells(last[|first| + k], accepted[k], k + 1)
  }

  ghost predicate RowsTellVisits(first: seq<PersistedCase>, last: seq<PersistedCase>, accepted: seq<P.Visit>) {
    |last| == |first| && forall i :: 0 <= i < |first| ==> RowTells(first[i], last[i], accepted)
  }

  /** The store says which accepted visit wrote each event and each row. */
  ghost predicate Stamped(first: QueueStore, last: QueueStore, accepted: seq<P.Visit>) {
    EventsTellVisits(first.events, last.events, accepted) && RowsTellVisits(first.cases, last.cases, accepted)
  }

  lemma EventsTellOneMore(
    first: seq<ReviewEvent>, last: seq<ReviewEvent>, accepted: seq<P.Visit>, event: ReviewEvent, visit: P.Visit)
    requires EventsTellVisits(first, last, accepted) && EventTells(event, visit, |accepted| + 1)
    ensures EventsTellVisits(first, last + [event], accepted + [visit])
  {
  }

  lemma RowTellsOneMore(
    first: PersistedCase, before: PersistedCase, after: PersistedCase, accepted: seq<P.Visit>, visit: P.Visit, call: Call)
    requires RowTells(first, before, accepted) && RowAfter(before, after, visit, call, |accepted| + 1)
    requires call.decision == visit.request.decision && call.reviewer == visit.request.reviewer
    ensures RowTells(first, after, accepted + [visit])
  {
  }

  lemma RowsTellOneMore(
    first: seq<PersistedCase>, last: seq<PersistedCase>, after: seq<PersistedCase>, accepted: seq<P.Visit>,
    visit: P.Visit, call: Call)
    requires RowsTellVisits(first, last, accepted) && |after| == |last|
    requires forall i :: 0 <= i < |last| ==> RowAfter(last[i], after[i], visit, call, |accepted| + 1)
    requires call.decision == visit.request.decision && call.reviewer == visit.request.reviewer
    ensures RowsTellVisits(first, after, accepted + [visit])
  {
    forall i | 0 <= i < |first|
      ensures RowTells(first[i], after[i], accepted + [visit])
    {
      RowTellsOneMore(first[i], last[i], after[i], accepted, visit, call);
    }
  }

  lemma StampedOneMore(
    first: QueueStore, last: QueueStore, trail: seq<AuditEntry>, accepted: seq<P.Visit>, visit: P.Visit)
    requires P.StoresTrail(last, trail) && |trail| == |accepted| && Stamped(first, last, accepted)
    requires P.Accepts(last, visit)
    ensures Stamped(first, P.After(last, visit), accepted + [visit])
  {
    var event := AcceptedVisitWrites(last, trail, visit);
    EventsTellOneMore(first.events, last.events, accepted, event, visit);
    RowsTellOneMore(first.cases, last.cases, P.After(last, visit).cases, accepted, visit, P.CallOf(last, visit));
  }

  lemma AcceptedAreCounted(store: QueueStore, visits: seq<P.Visit>)
    requires WellStored(store)
    ensures |AcceptedVisits(store, visits)| == |P.AcceptedCalls(store, visits)|
    decreases |visits|
  {
    if visits != [] {
      AcceptedAreCounted(store, visits[..|visits| - 1]);
    }
  }

  /** Over every run on a registered queue: event k is the one accepted visit k wrote, under number k and stamped with
      its clock; each row keeps its creation stamp, and its other stamp is the clock of the visit that decided it. */
  lemma {:induction false} RunStampsWhatItAccepts(store: QueueStore, visits: seq<P.Visit>)
    requires P.Registered(store)
    ensures Stamped(store, P.ServiceRun(store, visits), AcceptedVisits(store, visits))
    decreases |visits|
  {
    if visits == [] {
      NothingStamped(store);
    } else {
      var front, visit := visits[..|visits| - 1], visits[|visits| - 1];
      var before := P.ServiceRun(store, front);
      RunStampsWhatItAccepts(store, front);
      P.RunStoresWorkflow(store, front);
      AcceptedAreCounted(store, front);
      if P.Accepts(before, visit) {
        var trail := Run(P.StateWith(store, []), P.AcceptedCalls(store, front)).auditTrail;
        StampedOneMore(store, before, trail, AcceptedVisits(store, front), visit);
      } else {
        assert AcceptedVisits(store, visits) == AcceptedVisits(store, front);
      }
    }
  }

  lemma NothingStamped(store: QueueStore)
    requires P.Registered(store)
    ensures Stamped(store, store, [])
  {
    assert forall i :: 0 <= i < |store.cases| ==> store.cases[i] in store.cases;
  }
}
