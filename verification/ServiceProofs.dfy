/** The stored queue refines one in-memory workflow given the accepted calls. */
module ServiceProofs {
  import opened Results
  import opened Records
  import opened Resolution
  import opened Review
  import opened Workflow
  import opened WorkflowRuns
  import opened History
  import opened HistoryProofs
  import opened Reporting
  import opened Service

  // ---- a recorded decision keeps the trail faithful ---------------------------------------------------------------------

  lemma RecordedTells(state: WorkflowState, c: ReviewCase, decision: HumanDecision, reviewer: Option<string>)
    requires Faithful(state.cases, state.auditTrail) && state.nextSequence == |state.auditTrail| + 1
    requires c in state.cases && c.status.Pending?
    ensures forall d :: d in Recorded(state, c, decision, reviewer).cases ==>
              TellsEntry(d, Recorded(state, c, decision, reviewer).auditTrail)
  {
    var updated := Decided(c, decision, reviewer, state.nextSequence);
    var next := Recorded(state, c, decision, reviewer);
    forall d | d in next.cases
      ensures TellsEntry(d, next.auditTrail)
    {
      var i :| 0 <= i < |next.cases| && next.cases[i] == d;
      if state.cases[i].id != updated.id {
        assert TellsEntry(state.cases[i], state.auditTrail);
      }
    }
  }

  lemma RecordedHasCases(state: WorkflowState, c: ReviewCase, decision: HumanDecision, reviewer: Option<string>, k: nat)
    requires Faithful(state.cases, state.auditTrail) && state.nextSequence == |state.auditTrail| + 1
    requires c in state.cases && c.status.Pending? && k <= |state.auditTrail|
    ensures HasCase(Recorded(state, c, decision, reviewer).auditTrail[k], Recorded(state, c, decision, reviewer).cases)
  {
    var updated := Decided(c, decision, reviewer, state.nextSequence);
    var next := Recorded(state, c, decision, reviewer);
    if k == |state.auditTrail| {
      var at :| 0 <= at < |state.cases| && state.cases[at] == c;
      assert next.cases[at] == updated && updated in next.cases;
    } else {
      assert HasCase(state.auditTrail[k], state.cases);
      var d :| d in state.cases && !d.status.Pending? && d.resolution.Some? && EntryOf(d) == state.auditTrail[k];
      var i :| 0 <= i < |state.cases| && state.cases[i] == d;
      SameIdSameCase(state.cases, c, d);
      assert next.cases[i] == d && d in next.cases;
    }
  }

  /** One more decision, one more entry: the trail stays exactly what the resolved cases say. */
  lemma RecordedIsFaithful(state: WorkflowState, c: ReviewCase, decision: HumanDecision, reviewer: Option<string>)
    requires Faithful(state.cases, state.auditTrail) && state.nextSequence == |state.auditTrail| + 1
    requires c in state.cases && c.status.Pending?
    ensures var next := Recorded(state, c, decision, reviewer);
            Faithful(next.cases, next.auditTrail) && next.nextSequence == |next.auditTrail| + 1
  {
    RecordedTells(state, c, decision, reviewer);
    var next := Recorded(state, c, decision, reviewer);
    forall k | 0 <= k < |next.auditTrail|
      ensures HasCase(next.auditTrail[k], next.cases)
    {
      RecordedHasCases(state, c, decision, reviewer, k);
    }
  }

  // ---- the stored queue ----------------------------------------------------------------------------------------------------

  ghost predicate Versioned(p: PersistedCase) {
    p.version == if p.reviewCase.status.Pending? then INITIAL_CASE_VERSION else INITIAL_CASE_VERSION + 1
  }

  /** The store holds exactly what a workflow with this trail would have written. */
  ghost predicate StoresTrail(store: QueueStore, trail: seq<AuditEntry>) {
    && WellStored(store) && CasesCovered(CasesOf(store.cases), store.records)
    && Faithful(CasesOf(store.cases), trail) && EventsTell(store.events, trail)
    && (forall p :: p in store.cases ==> Versioned(p))
    && (forall e :: e in store.events ==> e.Valid())
  }

  /** A freshly registered queue: pending cases at version 1, and no resolution event. */
  ghost predicate Registered(store: QueueStore) {
    && WellStored(store) && CasesCovered(CasesOf(store.cases), store.records)
    && (forall p :: p in store.cases ==> p.reviewCase.status.Pending? && p.reviewCase.resolution.None? && p.version == INITIAL_CASE_VERSION)
    && (forall e :: e in store.events ==> e.Valid() && !e.IsResolution())
  }

  /** The workflow state a store stands for. */
  function StateWith(store: QueueStore, trail: seq<AuditEntry>): WorkflowState {
    WorkflowState(CasesOf(store.cases), trail, |trail| + 1)
  }

  lemma RegisteredStoresNothing(store: QueueStore)
    requires Registered(store)
    ensures StoresTrail(store, [])
  {
    forall c | c in CasesOf(store.cases)
      ensures TellsEntry(c, [])
    {
      var i :| 0 <= i < |store.cases| && CasesOf(store.cases)[i] == c;
      assert store.cases[i] in store.cases;
    }
    assert forall i :: 0 <= i < |store.events| ==> store.events[i] in store.events;
  }

  /** Loading gives back the workflow state, whichever resolution events are still stored. */
  lemma LoadedIsStored(store: QueueStore, trail: seq<AuditEntry>)
    requires StoresTrail(store, trail)
    ensures LoadBundle(store) == Ok(StateWith(store, trail))
  {
    ReconstructionReturnsTrail(CasesOf(store.cases), store.events, trail);
  }

  lemma {:induction false} PersistedMirrorsCases(cases: seq<PersistedCase>, id: CaseId)
    ensures FindPersisted(cases, id).Some? <==> FindCase(CasesOf(cases), id).Some?
    ensures FindPersisted(cases, id).Some? ==> FindPersisted(cases, id).value.reviewCase == FindCase(CasesOf(cases), id).value
    decreases |cases|
  {
    if cases != [] {
      PersistedMirrorsCases(cases[1..], id);
      assert CasesOf(cases)[1..] == CasesOf(cases[1..]);
    }
  }

  lemma {:induction false} NotYetWritten(events: seq<ReviewEvent>, trail: seq<AuditEntry>, written: ReviewEvent)
    requires EventsTell(events, trail) && Contiguous(trail)
    requires written.sequence == Some(|trail| + 1)
    ensures CountWritten(events, written) == 0
    decreases |events|
  {
    if events != [] {
      EventsTellPrefix(events, trail, |events| - 1);
      NotYetWritten(events[..|events| - 1], trail, written);
      var e := events[|events| - 1];
      assert e in events;
    }
  }

  lemma FindUpdated(cases: seq<ReviewCase>, updated: ReviewCase)
    requires UniqueIds(cases) && exists c :: c in cases && c.id == updated.id
    ensures FindCase(ReplaceCase(cases, updated), updated.id) == Some(updated)
  {
    var next := ReplaceCase(cases, updated);
    var c :| c in cases && c.id == updated.id;
    var i :| 0 <= i < |cases| && cases[i] == c;
    assert next[i] == updated && updated in next;
    var found := FindCase(next, updated.id).value;
    var j :| 0 <= j < |next| && next[j] == found;
  }

  lemma RowsMirrorCases(cases: seq<PersistedCase>, updated: ReviewCase, now: string)
    ensures CasesOf(UpdateRows(cases, updated, now)) == ReplaceCase(CasesOf(cases), updated)
  {
  }

  /** The write of an accepted decision always goes through, and stores the state the workflow returned. */
  lemma AcceptedIsWritten(
    store: QueueStore, trail: seq<AuditEntry>, request: Request, c: ReviewCase, now: string)
    requires StoresTrail(store, trail)
    requires FindCase(CasesOf(store.cases), request.id) == Some(c) && c.status.Pending?
    requires FindPersisted(store.cases, request.id).Some?
    requires FindPersisted(store.cases, request.id).value.version == request.expectedVersion
    ensures var next := Recorded(StateWith(store, trail), c, request.decision, request.reviewer);
            var written := Write(store, request, next, now);
            && written.Ok? && StoresTrail(written.value, next.auditTrail)
            && StateWith(written.value, next.auditTrail) == next
            && written.value.events == store.events + [EventFrom(next.auditTrail[|trail|], now)]
            && written.value.records == store.records && written.value.snapshot == store.snapshot
  {
    var state := StateWith(store, trail);
    var next := Recorded(state, c, request.decision, request.reviewer);
    var updated := Decided(c, request.decision, request.reviewer, state.nextSequence);
    var event := EventFrom(next.auditTrail[|trail|], now);
    PersistedMirrorsCases(store.cases, request.id);
    FindUpdated(CasesOf(store.cases), updated);
    RowsMirrorCases(store.cases, updated, now);
    NotYetWritten(store.events, trail, event);
    assert (store.events + [event])[..|store.events|] == store.events;
    RecordedIsFaithful(state, c, request.decision, request.reviewer);
    var after := store.(cases := UpdateRows(store.cases, updated, now), events := store.events + [event]);
    assert Write(store, request, next, now) == Ok(after);
    WrittenStoresTrail(store, trail, c, request.decision, request.reviewer, now, after);
  }

  lemma WrittenStoresTrail(
    store: QueueStore, trail: seq<AuditEntry>, c: ReviewCase, decision: HumanDecision, reviewer: Option<string>,
    now: string, after: QueueStore)
    requires StoresTrail(store, trail) && c in CasesOf(store.cases) && c.status.Pending?
    requires var next := Recorded(StateWith(store, trail), c, decision, reviewer);
             && Faithful(next.cases, next.auditTrail) && CasesOf(after.cases) == next.cases
             && after == store.(cases := UpdateRows(store.cases, Decided(c, decision, reviewer, |trail| + 1), now),
                                events := store.events + [EventFrom(next.auditTrail[|trail|], now)])
    ensures StoresTrail(after, Recorded(StateWith(store, trail), c, decision, reviewer).auditTrail)
  {
    var next := Recorded(StateWith(store, trail), c, decision, reviewer);
    var event := EventFrom(next.auditTrail[|trail|], now);
    forall p | p in after.cases
      ensures Versioned(p)
    {
      var i :| 0 <= i < |after.cases| && after.cases[i] == p;
      assert store.cases[i] in store.cases && Versioned(store.cases[i]);
      SameIdSameCase(CasesOf(store.cases), c, CasesOf(store.cases)[i]);
    }
    LongerTrailTells(store.events, trail, next.auditTrail[|trail|]);
    forall i | 0 <= i < |store.events| && store.events[i].IsResolution()
      ensures store.events[i].caseId != event.caseId
    {
      assert store.events[i] in store.events;
      var k :| 0 <= k < |trail| && store.events[i] == EventFrom(trail[k], store.events[i].occurredAt);
      var d := EventAgrees(CasesOf(store.cases), trail, k, now);
      SameIdSameCase(CasesOf(store.cases), c, d);
    }
    OneMoreTells(store.events, event, next.auditTrail);
    assert next.auditTrail[|trail|] == EntryOf(Decided(c, decision, reviewer, |trail| + 1));
  }

  lemma LongerTrailTells(events: seq<ReviewEvent>, trail: seq<AuditEntry>, entry: AuditEntry)
    requires EventsTell(events, trail)
    ensures EventsTell(events, trail + [entry])
  {
    forall e | e in events && e.IsResolution()
      ensures exists i :: 0 <= i < |trail + [entry]| && e == EventFrom((trail + [entry])[i], e.occurredAt)
    {
      var i :| 0 <= i < |trail| && e == EventFrom(trail[i], e.occurredAt);
      assert (trail + [entry])[i] == trail[i];
    }
  }

  // ---- one call, then whole runs --------------------------------------------------------------------------------------------

  /** One call on the service, with what its config lookup and its clock answered. */
  datatype Visit = Visit(request: Request, config: ConfigOutcome, now: string)

  ghost predicate Accepts(store: QueueStore, visit: Visit)
    requires WellStored(store)
  {
    Serviced(store, visit.request, visit.config, visit.now).Ok?
  }

  /** The queue after a call: a refused call changes nothing stored. */
  ghost function After(store: QueueStore, visit: Visit): (after: QueueStore)
    requires WellStored(store)
    ensures WellStored(after) && after.records == store.records && after.snapshot == store.snapshot
  {
    var r := Serviced(store, visit.request, visit.config, visit.now);
    if r.Err? then store else
      WriteKeepsIds(store, visit.request, Decide(store, visit.request, visit.config).value, visit.now);
      r.value
  }

  lemma WriteKeepsIds(store: QueueStore, request: Request, state: WorkflowState, now: string)
    requires WellStored(store)
    ensures Write(store, request, state, now).Ok? ==>
              && WellStored(Write(store, request, state, now).value)
              && Write(store, request, state, now).value.records == store.records
              && Write(store, request, state, now).value.snapshot == store.snapshot
  {
  }

  /** The in-memory call an accepted service call amounts to. */
  function CallOf(store: QueueStore, visit: Visit): Call
    requires WellStored(store)
  {
    var context := ContextFor(store, visit.request.decision, visit.config);
    Call(visit.request.id, visit.request.decision, visit.request.reviewer,
         if context.Ok? then context.value else NO_CONTEXT)
  }

  /** The service accepts exactly when the version is current, the context can be assembled and the
      workflow accepts; what it stores is then the state the workflow returns. */
  lemma OneVisit(store: QueueStore, trail: seq<AuditEntry>, visit: Visit)
    requires StoresTrail(store, trail)
    ensures var call := CallOf(store, visit);
            var state := StateWith(store, trail);
            var found := FindPersisted(store.cases, visit.request.id);
            && (Accepts(store, visit) <==>
                  && found.Some? && found.value.version == visit.request.expectedVersion
                  && ContextFor(store, visit.request.decision, visit.config).Ok?
                  && Resolved(state, call.id, call.decision, call.reviewer, call.context).Ok?)
            && (Accepts(store, visit) ==>
                  && StoresTrail(After(store, visit), Next(state, call).auditTrail)
                  && StateWith(After(store, visit), Next(state, call).auditTrail) == Next(state, call)
                  && |Next(state, call).auditTrail| == |trail| + 1)
  {
    LoadedIsStored(store, trail);
    PersistedMirrorsCases(store.cases, visit.request.id);
    var decided := Decide(store, visit.request, visit.config);
    if decided.Ok? {
      var c := FindCase(CasesOf(store.cases), visit.request.id).value;
      AcceptedIsWritten(store, trail, visit.request, c, visit.now);
    }
  }

  ghost function ServiceRun(store: QueueStore, visits: seq<Visit>): (last: QueueStore)
    requires WellStored(store)
    ensures WellStored(last)
    decreases |visits|
  {
    if visits == [] then store else After(ServiceRun(store, visits[..|visits| - 1]), visits[|visits| - 1])
  }

  /** The accepted calls of a run, in order. */
  ghost function AcceptedCalls(store: QueueStore, visits: seq<Visit>): seq<Call>
    requires WellStored(store)
    decreases |visits|
  {
    if visits == [] then [] else
      var before, visit := ServiceRun(store, visits[..|visits| - 1]), visits[|visits| - 1];
      AcceptedCalls(store, visits[..|visits| - 1]) + if Accepts(before, visit) then [CallOf(before, visit)] else []
  }

  /** The store holds exactly the state a workflow reaches from `start` through `calls`, none of them refused. */
  ghost predicate Tracks(start: WorkflowState, calls: seq<Call>, store: QueueStore) {
    && UniqueIds(start.cases)
    && StoresTrail(store, Run(start, calls).auditTrail)
    && StateWith(store, Run(start, calls).auditTrail) == Run(start, calls)
    && |Run(start, calls).auditTrail| == |calls|
  }

  lemma RunOneMore(start: WorkflowState, calls: seq<Call>, call: Call)
    requires UniqueIds(start.cases)
    ensures Run(start, calls + [call]) == Next(Run(start, calls), call)
  {
    var more := calls + [call];
    assert more[..|more| - 1] == calls;
  }

  lemma TracksOneVisit(start: WorkflowState, calls: seq<Call>, store: QueueStore, visit: Visit)
    requires Tracks(start, calls, store)
    ensures Tracks(start, calls + (if Accepts(store, visit) then [CallOf(store, visit)] else []), After(store, visit))
  {
    OneVisit(store, Run(start, calls).auditTrail, visit);
    if Accepts(store, visit) {
      RunOneMore(start, calls, CallOf(store, visit));
    } else {
      assert calls + [] == calls;
    }
  }

  /** After any sequence of accepted, refused or stale calls on a freshly registered queue, the store holds
      exactly the state of one in-memory workflow given the accepted calls, none of which it refuses. */
  lemma {:induction false} RunStoresWorkflow(store: QueueStore, visits: seq<Visit>)
    requires Registered(store)
    ensures Tracks(StateWith(store, []), AcceptedCalls(store, visits), ServiceRun(store, visits))
    decreases |visits|
  {
    if visits == [] {
      RegisteredStoresNothing(store);
    } else {
      var front, visit := visits[..|visits| - 1], visits[|visits| - 1];
      RunStoresWorkflow(store, front);
      TracksOneVisit(StateWith(store, []), AcceptedCalls(store, front), ServiceRun(store, front), visit);
    }
  }

  /** The refinement as a caller sees it: reconstruction succeeds and returns the workflow's own trail and
      next sequence, and a loaded bundle is the workflow's own state. */
  lemma ServiceRefinesWorkflow(store: QueueStore, visits: seq<Visit>)
    requires Registered(store)
    ensures var start := StateWith(store, []);
            var calls := AcceptedCalls(store, visits);
            var last := ServiceRun(store, visits);
            && UniqueIds(start.cases)
            && Reconstructed(CasesOf(last.cases), last.events)
               == Ok(ReconstructedHistory(Run(start, calls).auditTrail, Run(start, calls).nextSequence))
            && LoadBundle(last) == Ok(Run(start, calls))
  {
    RunStoresWorkflow(store, visits);
    var state := Run(StateWith(store, []), AcceptedCalls(store, visits));
    var last := ServiceRun(store, visits);
    LoadedIsStored(last, state.auditTrail);
    ReconstructionReturnsTrail(CasesOf(last.cases), last.events, state.auditTrail);
  }

  /** What is reconstructed from storage is the accepted calls themselves: entry `k` tells call `k`. */
  lemma StoredTrailTellsAcceptedCalls(store: QueueStore, visits: seq<Visit>)
    requires Registered(store)
    ensures var calls, last := AcceptedCalls(store, visits), ServiceRun(store, visits);
            var history := Reconstructed(CasesOf(last.cases), last.events);
            history.Ok? && TellsAll(history.value.entries, calls, 1, CasesOf(store.cases))
  {
    var start, calls := StateWith(store, []), AcceptedCalls(store, visits);
    ServiceRefinesWorkflow(store, visits);
    RunStoresWorkflow(store, visits);
    FullTrailTellsCalls(start, calls);
  }

  /** On every reachable store, deleting any subset of the events leaves the reconstruction unchanged. */
  lemma ReachableEventsAreRedundant(store: QueueStore, visits: seq<Visit>, kept: seq<bool>)
    requires Registered(store) && |kept| == |ServiceRun(store, visits).events|
    ensures var last := ServiceRun(store, visits);
            Reconstructed(CasesOf(last.cases), Keep(last.events, kept)) == Reconstructed(CasesOf(last.cases), last.events)
  {
    RunStoresWorkflow(store, visits);
    var last := ServiceRun(store, visits);
    EventsAreRedundant(CasesOf(last.cases), last.events, kept,
                       Run(StateWith(store, []), AcceptedCalls(store, visits)).auditTrail);
  }

  /** In every run each case is resolved at most once, and is stored at version 1 while PENDING, 2 ever after. */
  lemma EachCaseIsResolvedOnce(store: QueueStore, visits: seq<Visit>)
    requires Registered(store)
    ensures var last := ServiceRun(store, visits);
            var trail := Reconstructed(CasesOf(last.cases), last.events);
            && trail.Ok?
            && (forall i, j :: 0 <= i < j < |trail.value.entries| ==>
                  trail.value.entries[i].caseId != trail.value.entries[j].caseId)
            && (forall p :: p in last.cases ==> p.version == if p.reviewCase.status.Pending? then 1 else 2)
  {
    RunStoresWorkflow(store, visits);
    ServiceRefinesWorkflow(store, visits);
    var last := ServiceRun(store, visits);
    var trail := Run(StateWith(store, []), AcceptedCalls(store, visits)).auditTrail;
    forall i, j | 0 <= i < j < |trail|
      ensures trail[i].caseId != trail[j].caseId
    {
      var c := EventAgrees(CasesOf(last.cases), trail, i, "");
      var d := EventAgrees(CasesOf(last.cases), trail, j, "");
    }
    forall p | p in last.cases
      ensures p.version == if p.reviewCase.status.Pending? then 1 else 2
    {
      assert Versioned(p);
    }
  }
}
