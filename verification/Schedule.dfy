/** Concurrent writers. Each enters the one serialized write scope, loads, decides, applies and leaves, in
    any interleaving the scope allows. */
module Schedule {
  import opened Results
  import opened Review
  import opened Workflow
  import opened WorkflowRuns
  import opened History
  import opened HistoryProofs
  import opened Service
  import opened ServiceProofs

  type WriterId = nat

  datatype Phase =
    | Idle
    | Entered(visit: Visit)
    | Loaded(visit: Visit, bundle: QueueStore)
    | DecidedOn(visit: Visit, bundle: QueueStore, state: WorkflowState)
    | Wrote(visit: Visit, draft: QueueStore)
    | Refused(visit: Visit)

  /** What is committed, who holds the scope, where each writer stands, and the calls in commit order. */
  datatype World = World(stored: QueueStore, holder: Option<WriterId>, phases: map<WriterId, Phase>, log: seq<Visit>)

  datatype Action =
    | Enter(writer: WriterId, visit: Visit)
    | Load(writer: WriterId)
    | Decide(writer: WriterId)
    | Apply(writer: WriterId)
    | Leave(writer: WriterId)

  function PhaseOf(world: World, writer: WriterId): Phase {
    if writer in world.phases then world.phases[writer] else Idle
  }

  function Move(world: World, writer: WriterId, phase: Phase): World {
    world.(phases := world.phases[writer := phase])
  }

  /** One action of one writer; an action that is not enabled waits, and changes nothing. Decisions read the
      bundle the writer loaded; writes land on whatever is stored when they happen. */
  ghost function Act(world: World, action: Action): World {
    var phase := PhaseOf(world, action.writer);
    match action
    case Enter(w, visit) =>
      if world.holder.None? && phase.Idle? then Move(world, w, Entered(visit)).(holder := Some(w)) else world
    case Load(w) =>
      if phase.Entered? then Move(world, w, Loaded(phase.visit, world.stored)) else world
    case Decide(w) =>
      if !phase.Loaded? || !WellStored(phase.bundle) then world else
        var decided := Service.Decide(phase.bundle, phase.visit.request, phase.visit.config);
        Move(world, w, if decided.Err? then Refused(phase.visit) else DecidedOn(phase.visit, phase.bundle, decided.value))
    case Apply(w) =>
      if !phase.DecidedOn? then world else
        var written := Write(world.stored, phase.visit.request, phase.state, phase.visit.now);
        Move(world, w, if written.Err? then Refused(phase.visit) else Wrote(phase.visit, written.value))
    case Leave(w) =>
      if phase.Wrote? then
        Move(world, w, Idle).(stored := phase.draft, holder := None, log := world.log + [phase.visit])
      else if phase.Refused? then
        Move(world, w, Idle).(holder := None, log := world.log + [phase.visit])
      else world
  }

  ghost function Play(world: World, schedule: seq<Action>): World
    decreases |schedule|
  {
    if schedule == [] then world else Act(Play(world, schedule[..|schedule| - 1]), schedule[|schedule| - 1])
  }

  function Opening(store: QueueStore): World {
    World(store, None, map[], [])
  }

  /** What a writer inside the scope knows is still so. */
  ghost predicate UpToDate(world: World, writer: WriterId)
    requires WellStored(world.stored)
  {
    var phase := PhaseOf(world, writer);
    match phase
    case Idle => true
    case Entered(visit) => true
    case Loaded(visit, bundle) => bundle == world.stored
    case DecidedOn(visit, bundle, state) =>
      bundle == world.stored && Service.Decide(world.stored, visit.request, visit.config) == Ok(state)
    case Wrote(visit, draft) => Serviced(world.stored, visit.request, visit.config, visit.now) == Ok(draft)
    case Refused(visit) => Serviced(world.stored, visit.request, visit.config, visit.now).Err?
  }

  /** The committed queue is the serial run of the committed calls; only the holder of the scope is inside
      it, and the bundle it loaded is still what is stored. */
  ghost predicate Serialized(world: World, start: QueueStore) {
    && WellStored(start) && world.stored == ServiceRun(start, world.log)
    && (forall w: WriterId :: !PhaseOf(world, w).Idle? ==> world.holder == Some(w))
    && (forall w: WriterId :: UpToDate(world, w))
  }

  /** An action changes no other writer's phase, and does nothing at all while another writer is inside. */
  lemma OthersAreUntouched(world: World, action: Action, other: WriterId)
    requires other != action.writer
    requires forall w: WriterId :: !PhaseOf(world, w).Idle? ==> world.holder == Some(w)
    ensures PhaseOf(Act(world, action), other) == PhaseOf(world, other)
    ensures !PhaseOf(world, other).Idle? ==> Act(world, action) == world
  {
  }

  /** The acting writer's own knowledge after the action, and the committed queue with it. */
  lemma ActorStaysUpToDate(world: World, start: QueueStore, action: Action)
    requires Serialized(world, start)
    ensures var next := Act(world, action);
            && next.stored == ServiceRun(start, next.log)
            && UpToDate(next, action.writer)
            && (!PhaseOf(next, action.writer).Idle? ==> next.holder == Some(action.writer))
  {
    var next, w := Act(world, action), action.writer;
    var phase := PhaseOf(world, w);
    assert UpToDate(world, w);
    if action.Leave? && (phase.Wrote? || phase.Refused?) {
      assert next.log[..|next.log| - 1] == world.log && next.log[|next.log| - 1] == phase.visit;
    }
  }

  lemma ActKeepsSerialized(world: World, start: QueueStore, action: Action)
    requires Serialized(world, start)
    ensures Serialized(Act(world, action), start)
  {
    var next := Act(world, action);
    ActorStaysUpToDate(world, start, action);
    forall other: WriterId | other != action.writer
      ensures !PhaseOf(next, other).Idle? ==> next.holder == Some(other)
      ensures UpToDate(next, other)
    {
      OthersAreUntouched(world, action, other);
      assert UpToDate(world, other);
    }
  }

  /** Every schedule stores what running the calls one after another in commit order stores, and whenever a
      writer holds a decision, the bundle it decided on is still the stored state. */
  lemma {:induction false} EveryScheduleIsSerial(store: QueueStore, schedule: seq<Action>)
    requires WellStored(store)
    ensures Serialized(Play(Opening(store), schedule), store)
    decreases |schedule|
  {
    if schedule != [] {
      EveryScheduleIsSerial(store, schedule[..|schedule| - 1]);
      ActKeepsSerialized(Play(Opening(store), schedule[..|schedule| - 1]), store, schedule[|schedule| - 1]);
    }
  }

  /** On a registered queue, every schedule leaves exactly the trail of one in-memory workflow. */
  lemma EveryScheduleStoresAWorkflow(store: QueueStore, schedule: seq<Action>)
    requires Registered(store)
    ensures var world := Play(Opening(store), schedule);
            && WellStored(world.stored)
            && Tracks(StateWith(store, []), AcceptedCalls(store, world.log), world.stored)
  {
    EveryScheduleIsSerial(store, schedule);
    RunStoresWorkflow(store, Play(Opening(store), schedule).log);
  }

  // ---- without the scope -------------------------------------------------------------------------------------------------------

  lemma {:induction false} OtherRowsStay(cases: seq<PersistedCase>, resolved: ReviewCase, now: string, id: CaseId)
    requires id != resolved.id
    ensures FindPersisted(UpdateRows(cases, resolved, now), id) == FindPersisted(cases, id)
    decreases |cases|
  {
    if cases != [] {
      OtherRowsStay(cases[1..], resolved, now, id);
      assert UpdateRows(cases, resolved, now)[1..] == UpdateRows(cases[1..], resolved, now);
    }
  }

  /** The queue after two writers decided on one bundle and applied in turn, each version check passing. */
  ghost function BothApplied(
    store: QueueStore, first: Request, second: Request, c: ReviewCase, d: ReviewCase, trail: seq<AuditEntry>,
    now: string): Result<QueueStore, ReviewError>
    requires WellStored(store)
  {
    var one := Write(store, first, Recorded(StateWith(store, trail), c, first.decision, first.reviewer), now);
    if one.Err? then one
    else Write(one.value, second, Recorded(StateWith(store, trail), d, second.decision, second.reviewer), now)
  }

  /** Two different pending cases, both decided from the same loaded state. */
  ghost predicate DecidedTogether(
    store: QueueStore, first: Request, second: Request, c: ReviewCase, d: ReviewCase, trail: seq<AuditEntry>)
  {
    && StoresTrail(store, trail) && first.id != second.id
    && FindCase(CasesOf(store.cases), first.id) == Some(c) && c.status.Pending?
    && FindCase(CasesOf(store.cases), second.id) == Some(d) && d.status.Pending?
    && first.expectedVersion == INITIAL_CASE_VERSION && second.expectedVersion == INITIAL_CASE_VERSION
  }

  lemma PendingAtInitialVersion(store: QueueStore, trail: seq<AuditEntry>, id: CaseId)
    requires StoresTrail(store, trail) && FindCase(CasesOf(store.cases), id).Some?
    requires FindCase(CasesOf(store.cases), id).value.status.Pending?
    ensures FindPersisted(store.cases, id).Some? && FindPersisted(store.cases, id).value.version == INITIAL_CASE_VERSION
  {
    PersistedMirrorsCases(store.cases, id);
    assert Versioned(FindPersisted(store.cases, id).value);
  }

  lemma {:induction false} WrittenOnce(events: seq<ReviewEvent>, trail: seq<AuditEntry>, entry: AuditEntry, other: AuditEntry, now: string)
    requires EventsTell(events, trail) && Contiguous(trail) && entry.sequence == |trail| + 1
    requires entry.caseId != other.caseId
    ensures CountWritten(events + [EventFrom(other, now)] + [EventFrom(entry, now)], EventFrom(entry, now)) == 1
  {
    var e, o := EventFrom(entry, now), EventFrom(other, now);
    NotYetWritten(events, trail, e);
    assert (events + [o])[..|events|] == events;
    assert (events + [o] + [e])[..|events| + 1] == events + [o];
  }

  /** The write of a second decision, on a store that already holds the first. */
  lemma WriteOnTopOf(
    store: QueueStore, one: QueueStore, second: Request, d: ReviewCase, mine: ReviewCase, trail: seq<AuditEntry>,
    now: string)
    requires StoresTrail(store, trail) && mine.id != second.id && mine.resolution.Some?
    requires FindCase(CasesOf(store.cases), second.id) == Some(d) && d.status.Pending?
    requires second.expectedVersion == INITIAL_CASE_VERSION
    requires one.cases == UpdateRows(store.cases, mine, now)
    requires one.events == store.events + [EventFrom(EntryOf(mine), now)]
    ensures
      var next := Recorded(StateWith(store, trail), d, second.decision, second.reviewer);
      var written := Write(one, second, next, now);
      var yours := Decided(d, second.decision, second.reviewer, |trail| + 1);
      written.Ok? && written.value.cases == UpdateRows(one.cases, yours, now)
      && written.value.events == one.events + [EventFrom(EntryOf(yours), now)]
  {
    var yours := Decided(d, second.decision, second.reviewer, |trail| + 1);
    PendingAtInitialVersion(store, trail, second.id);
    OtherRowsStay(store.cases, mine, now, second.id);
    FindUpdated(CasesOf(store.cases), yours);
    WrittenOnce(store.events, trail, EntryOf(yours), EntryOf(mine), now);
  }

  /** The second write goes through as well: its own row is untouched. */
  lemma SecondWriteLands(
    store: QueueStore, first: Request, second: Request, c: ReviewCase, d: ReviewCase, trail: seq<AuditEntry>, now: string)
    requires DecidedTogether(store, first, second, c, d, trail)
    ensures BothApplied(store, first, second, c, d, trail, now).Ok?
    ensures CasesOf(BothApplied(store, first, second, c, d, trail, now).value.cases) == ReplaceCase(
              ReplaceCase(CasesOf(store.cases), Decided(c, first.decision, first.reviewer, |trail| + 1)),
              Decided(d, second.decision, second.reviewer, |trail| + 1))
  {
    var mine := Decided(c, first.decision, first.reviewer, |trail| + 1);
    var one := FirstWriteLands(store, first, c, trail, now);
    WriteOnTopOf(store, one, second, d, mine, trail, now);
    RowsMirrorCases(store.cases, mine, now);
    RowsMirrorCases(one.cases, Decided(d, second.decision, second.reviewer, |trail| + 1), now);
  }

  lemma FirstWriteLands(store: QueueStore, first: Request, c: ReviewCase, trail: seq<AuditEntry>, now: string)
    returns (one: QueueStore)
    requires StoresTrail(store, trail) && FindCase(CasesOf(store.cases), first.id) == Some(c) && c.status.Pending?
    requires first.expectedVersion == INITIAL_CASE_VERSION
    ensures
      var mine := Decided(c, first.decision, first.reviewer, |trail| + 1);
      Write(store, first, Recorded(StateWith(store, trail), c, first.decision, first.reviewer), now) == Ok(one) &&
      one.cases == UpdateRows(store.cases, mine, now) &&
      one.events == store.events + [EventFrom(EntryOf(mine), now)] &&
      StoresTrail(one, Recorded(StateWith(store, trail), c, first.decision, first.reviewer).auditTrail)
  {
    var mine := Decided(c, first.decision, first.reviewer, |trail| + 1);
    PendingAtInitialVersion(store, trail, first.id);
    AcceptedIsWritten(store, trail, first, c, now);
    FindUpdated(CasesOf(store.cases), mine);
    one := Write(store, first, Recorded(StateWith(store, trail), c, first.decision, first.reviewer), now).value;
  }

  /** What the unique index on (queue, resolution sequence) demands of the stored events. */
  ghost predicate SequencesAreUnique(events: seq<ReviewEvent>) {
    forall i, j :: 0 <= i < j < |events| && events[i].IsResolution() && events[j].IsResolution() ==>
      events[i].sequence != events[j].sequence
  }

  lemma TrailKeepsSequencesUnique(store: QueueStore, trail: seq<AuditEntry>)
    requires StoresTrail(store, trail)
    ensures SequencesAreUnique(store.events)
  {
    forall i, j | 0 <= i < j < |store.events| && store.events[i].IsResolution() && store.events[j].IsResolution()
      ensures store.events[i].sequence != store.events[j].sequence
    {
      assert store.events[i] in store.events && store.events[j] in store.events;
      var k :| 0 <= k < |trail| && store.events[i] == EventFrom(trail[k], store.events[i].occurredAt);
      var l :| 0 <= l < |trail| && store.events[j] == EventFrom(trail[l], store.events[j].occurredAt);
      assert trail[k].sequence == k + 1 && trail[l].sequence == l + 1;
    }
  }

  /** Inside the scope the index never has anything to refuse. */
  lemma EveryScheduleKeepsSequencesUnique(store: QueueStore, schedule: seq<Action>)
    requires Registered(store)
    ensures SequencesAreUnique(Play(Opening(store), schedule).stored.events)
  {
    var world := Play(Opening(store), schedule);
    EveryScheduleStoresAWorkflow(store, schedule);
    TrailKeepsSequencesUnique(
      world.stored, Run(StateWith(store, []), AcceptedCalls(store, world.log)).auditTrail);
  }

  /** Outside it, the second of two decisions on one bundle is exactly what the index refuses. */
  lemma IndexRefusesTheSecondWrite(
    store: QueueStore, first: Request, second: Request, c: ReviewCase, d: ReviewCase, trail: seq<AuditEntry>, now: string)
    requires DecidedTogether(store, first, second, c, d, trail)
    ensures var one := Write(store, first, Recorded(StateWith(store, trail), c, first.decision, first.reviewer), now);
            one.Ok? && SequencesAreUnique(one.value.events)
    ensures BothApplied(store, first, second, c, d, trail, now).Ok?
    ensures !SequencesAreUnique(BothApplied(store, first, second, c, d, trail, now).value.events)
  {
    var mine := Decided(c, first.decision, first.reviewer, |trail| + 1);
    var yours := Decided(d, second.decision, second.reviewer, |trail| + 1);
    var one := FirstWriteLands(store, first, c, trail, now);
    TrailKeepsSequencesUnique(one, Recorded(StateWith(store, trail), c, first.decision, first.reviewer).auditTrail);
    WriteOnTopOf(store, one, second, d, mine, trail, now);
    var both := BothApplied(store, first, second, c, d, trail, now).value;
    SharedSequence(store.events, EventFrom(EntryOf(mine), now), EventFrom(EntryOf(yours), now), both.events);
  }

  lemma SharedSequence(before: seq<ReviewEvent>, e: ReviewEvent, f: ReviewEvent, events: seq<ReviewEvent>)
    requires e.IsResolution() && f.IsResolution() && e.sequence == f.sequence && events == before + [e] + [f]
    ensures !SequencesAreUnique(events)
  {
    assert events[|before|] == e && events[|before| + 1] == f;
  }

  /** Two cases under one number are never reconstructed. */
  lemma SharedNumberIsRejected(cases: seq<ReviewCase>, events: seq<ReviewEvent>, c: ReviewCase, d: ReviewCase, n: int)
    requires UniqueIds(cases) && (forall e :: e in events ==> e.Valid())
    requires c in cases && d in cases && c != d && ResolvedAs(c, n) && ResolvedAs(d, n)
    ensures Reconstructed(cases, events).Err?
  {
    if Reconstructed(cases, events).Ok? {
      SuccessNumbersCases(cases, events, Reconstructed(cases, events).value);
      assert false;
    }
  }

  lemma BothAreStored(cases: seq<ReviewCase>, c: ReviewCase, d: ReviewCase, mine: ReviewCase, yours: ReviewCase)
    requires UniqueIds(cases) && c in cases && d in cases && c.id != d.id && mine.id == c.id && yours.id == d.id
    ensures var after := ReplaceCase(ReplaceCase(cases, mine), yours);
            UniqueIds(after) && mine in after && yours in after
  {
    var after := ReplaceCase(ReplaceCase(cases, mine), yours);
    var i :| 0 <= i < |cases| && cases[i] == c;
    var j :| 0 <= j < |cases| && cases[j] == d;
    assert after[i] == mine && after[j] == yours;
  }

  lemma TwoUnderOneNumber(
    cases: seq<ReviewCase>, c: ReviewCase, d: ReviewCase, mine: ReviewCase, yours: ReviewCase,
    events: seq<ReviewEvent>, n: int)
    requires UniqueIds(cases) && c in cases && d in cases && c.id != d.id && mine.id == c.id && yours.id == d.id
    requires ResolvedAs(mine, n) && ResolvedAs(yours, n) && forall e :: e in events ==> e.Valid()
    ensures Reconstructed(ReplaceCase(ReplaceCase(cases, mine), yours), events).Err?
  {
    BothAreStored(cases, c, d, mine, yours);
    SharedNumberIsRejected(ReplaceCase(ReplaceCase(cases, mine), yours), events, mine, yours, n);
  }

  lemma TogetherAreUnderOneNumber(
    store: QueueStore, first: Request, second: Request, c: ReviewCase, d: ReviewCase, trail: seq<AuditEntry>)
    requires DecidedTogether(store, first, second, c, d, trail)
    ensures UniqueIds(CasesOf(store.cases)) && c in CasesOf(store.cases) && d in CasesOf(store.cases) && c.id != d.id
    ensures ResolvedAs(Decided(c, first.decision, first.reviewer, |trail| + 1), |trail| + 1)
    ensures ResolvedAs(Decided(d, second.decision, second.reviewer, |trail| + 1), |trail| + 1)
    ensures Decided(c, first.decision, first.reviewer, |trail| + 1).id == c.id
    ensures Decided(d, second.decision, second.reviewer, |trail| + 1).id == d.id
  {
  }

  /** Version checks alone are not enough. Outside one serialized scope, and without the index, two accepted
      decisions on different cases taken from the same bundle both pass their version checks, and whatever they
      decide, the queue they leave is one no serial order of calls could have stored: with whatever valid
      events, its history no longer reconstructs. */
  lemma VersionCheckAloneIsNotEnough(
    store: QueueStore, first: Request, second: Request, c: ReviewCase, d: ReviewCase, trail: seq<AuditEntry>,
    now: string, events: seq<ReviewEvent>)
    requires DecidedTogether(store, first, second, c, d, trail) && forall e :: e in events ==> e.Valid()
    ensures BothApplied(store, first, second, c, d, trail, now).Ok?
    ensures Reconstructed(CasesOf(BothApplied(store, first, second, c, d, trail, now).value.cases), events).Err?
  {
    SecondWriteLands(store, first, second, c, d, trail, now);
    TogetherAreUnderOneNumber(store, first, second, c, d, trail);
    TwoUnderOneNumber(CasesOf(store.cases), c, d,
      Decided(c, first.decision, first.reviewer, |trail| + 1),
      Decided(d, second.decision, second.reviewer, |trail| + 1), events, |trail| + 1);
  }
}
