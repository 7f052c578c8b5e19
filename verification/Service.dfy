/** The one supported way to resolve a persisted review case: load, decide, write back, in one scope. */
module Service {
  import opened Results
  import opened Records
  import opened Resolution
  import opened Review
  import opened Authorization
  import opened Workflow
  import opened History
  import opened Reporting

  /** Everything stored for one review queue. */
  datatype QueueStore = QueueStore(
    cases: seq<PersistedCase>, events: seq<ReviewEvent>, records: set<RecordId>, snapshot: Snapshot,
    configPath: Option<string>)

  /** One reviewer's decision, taken against the version that was on screen. */
  datatype Request = Request(id: CaseId, decision: HumanDecision, reviewer: Option<string>, expectedVersion: int)

  /** What the queue's storage guarantees: case ids are unique, and no snapshot entry names one record twice. */
  predicate WellStored(store: QueueStore) {
    UniqueIds(CasesOf(store.cases)) && EndsDiffer(store.snapshot)
  }

  /** A loaded bundle as the workflow state it rebuilds. */
  function LoadBundle(store: QueueStore): Result<WorkflowState, ReviewError>
  {
    var history := Reconstructed(CasesOf(store.cases), store.events);
    if history.Err? then Err(history.error)
    else if !CasesCovered(CasesOf(store.cases), store.records) then Err(BundleIntegrity)
    else Ok(WorkflowState(CasesOf(store.cases), history.value.entries, history.value.nextSequence))
  }

  function FindPersisted(cases: seq<PersistedCase>, id: CaseId): (r: Option<PersistedCase>)
    ensures r.Some? ==> r.value in cases && r.value.reviewCase.id == id
  {
    if cases == [] then None
    else if cases[0].reviewCase.id == id then Some(cases[0])
    else FindPersisted(cases[1..], id)
  }

  /** The configuration a MATCH is authorized under: none when no path is stored, an error when the stored
      path cannot be read. */
  type ConfigOutcome = Result<Option<Config>, ReviewError>

  /** What a lookup of this path answers when the file reads as `onDisk` and these configs are held already. */
  function ConfigAnswer(path: Option<string>, held: map<string, Config>, onDisk: Option<Config>): ConfigOutcome {
    if path.None? || path.value == "" then Ok(None)
    else if path.value in held then Ok(Some(held[path.value]))
    else if onDisk.None? then Err(ConfigUnavailable) else Ok(onDisk)
  }

  /** The configs held after that lookup. */
  function HeldAfter(path: Option<string>, held: map<string, Config>, onDisk: Option<Config>): map<string, Config> {
    var answer := ConfigAnswer(path, held, onDisk);
    if answer.Ok? && answer.value.Some? then held[path.value := answer.value.value] else held
  }

  function HeldAfterAll(path: Option<string>, held: map<string, Config>, onDisk: seq<Option<Config>>): map<string, Config> {
    if onDisk == [] then held
    else HeldAfter(path, HeldAfterAll(path, held, onDisk[..|onDisk| - 1]), onDisk[|onDisk| - 1])
  }

  function FirstReadable(onDisk: seq<Option<Config>>): Option<Config> {
    if onDisk == [] then None
    else if onDisk[0].Some? then onDisk[0] else FirstReadable(onDisk[1..])
  }

  lemma {:induction false} FirstReadableGrows(onDisk: seq<Option<Config>>, next: Option<Config>)
    ensures FirstReadable(onDisk + [next]) == if FirstReadable(onDisk).Some? then FirstReadable(onDisk) else next
    decreases |onDisk|
  {
    if onDisk != [] {
      assert (onDisk + [next])[1..] == onDisk[1..] + [next];
      FirstReadableGrows(onDisk[1..], next);
    }
  }

  lemma {:induction false} HeldIsTheFirstReadable(path: string, onDisk: seq<Option<Config>>)
    requires path != ""
    ensures var held := HeldAfterAll(Some(path), map[], onDisk);
            held == match FirstReadable(onDisk) case None => map[] case Some(config) => map[path := config]
    decreases |onDisk|
  {
    if onDisk != [] {
      var front, last := onDisk[..|onDisk| - 1], onDisk[|onDisk| - 1];
      HeldIsTheFirstReadable(path, front);
      FirstReadableGrows(front, last);
      assert onDisk == front + [last];
    }
  }

  /** Over the life of a service every lookup of its queue answers the first configuration that could be read, whatever
      the file holds later, and an error until one could. */
  lemma ConfigIsReadOnce(path: string, earlier: seq<Option<Config>>, now: Option<Config>)
    requires path != ""
    ensures ConfigAnswer(Some(path), HeldAfterAll(Some(path), map[], earlier), now)
            == match FirstReadable(earlier + [now]) case None => Err(ConfigUnavailable) case Some(config) => Ok(Some(config))
  {
    HeldIsTheFirstReadable(path, earlier);
    FirstReadableGrows(earlier, now);
  }

  /** The authorization context, assembled for a MATCH only. */
  function ContextFor(store: QueueStore, decision: HumanDecision, config: ConfigOutcome): Result<AuthContext, ReviewError>
    requires WellStored(store)
  {
    if !decision.DecideMatch? then Ok(NO_CONTEXT) else
      var rebuilt := Rebuilt(store.snapshot);
      if rebuilt.Err? then Err(rebuilt.error)
      else if config.Err? then Err(config.error)
      else Ok(AuthContext(Some(rebuilt.value), Some(store.records), config.value))
  }

  /** Load, locate, check the version, decide: everything before the write. */
  ghost function Decide(store: QueueStore, request: Request, config: ConfigOutcome): Result<WorkflowState, ReviewError>
    requires WellStored(store)
  {
    var bundle := LoadBundle(store);
    var found := FindPersisted(store.cases, request.id);
    if bundle.Err? then Err(bundle.error)
    else if found.None? then Err(CaseNotFound)
    else if found.value.version != request.expectedVersion then Err(StaleVersion)
    else
      var context := ContextFor(store, request.decision, config);
      if context.Err? then Err(context.error) else
        Resolved(bundle.value, request.id, request.decision, request.reviewer, context.value)
  }

  function UpdateRows(cases: seq<PersistedCase>, resolved: ReviewCase, now: string): (r: seq<PersistedCase>)
    ensures |r| == |cases|
    ensures forall i :: 0 <= i < |r| ==>
      r[i] == if cases[i].reviewCase.id == resolved.id then cases[i].WithCase(resolved, now) else cases[i]
  {
    seq(|cases|, i requires 0 <= i < |cases| =>
      if cases[i].reviewCase.id == resolved.id then cases[i].WithCase(resolved, now) else cases[i])
  }

  /** The storage contract: a conditional update of one row, and the history row appended with it. */
  function ApplyResolution(store: QueueStore, resolved: ReviewCase, expectedVersion: int, event: ReviewEvent, now: string)
    : Result<QueueStore, ReviewError>
  {
    var found := FindPersisted(store.cases, resolved.id);
    if found.None? then Err(CaseNotFound)
    else if found.value.version != expectedVersion then Err(StaleVersion)
    else Ok(store.(cases := UpdateRows(store.cases, resolved, now), events := store.events + [event]))
  }

  predicate IsWritten(e: ReviewEvent, written: ReviewEvent) {
    e.caseId == written.caseId && e.IsResolution() && e.sequence == written.sequence && e.eventType == written.eventType
  }

  function CountWritten(events: seq<ReviewEvent>, written: ReviewEvent): nat {
    if events == [] then 0 else
      CountWritten(events[..|events| - 1], written) + if IsWritten(events[|events| - 1], written) then 1 else 0
  }

  /** The write that follows a decision: apply it, and insist that exactly one history row records it. */
  function Write(store: QueueStore, request: Request, state: WorkflowState, now: string): Result<QueueStore, ReviewError> {
    var updated := FindCase(state.cases, request.id);
    if state.auditTrail == [] || state.auditTrail[|state.auditTrail| - 1].caseId != request.id || updated.None?
    then Err(HistoryIntegrity)
    else
      var event := EventFrom(state.auditTrail[|state.auditTrail| - 1], now);
      var applied := ApplyResolution(store, updated.value, request.expectedVersion, event, now);
      if applied.Err? then applied
      else if CountWritten(applied.value.events, event) != 1 then Err(HistoryIntegrity)
      else applied
  }

  /** One call: the queue it stores, or the reason nothing was written. */
  ghost function Serviced(store: QueueStore, request: Request, config: ConfigOutcome, now: string): Result<QueueStore, ReviewError>
    requires WellStored(store)
  {
    var decided := Decide(store, request, config);
    if decided.Err? then Err(decided.error) else Write(store, request, decided.value, now)
  }

  class ReviewQueueService {
    var store: QueueStore
    var configs: map<string, Config>

    constructor (initial: QueueStore)
      ensures store == initial && configs == map[]
    {
      store, configs := initial, map[];
    }

    /** What `EntityResolutionConfig` answers when the stored file reads as `onDisk`. */
    ghost function ConfigNow(onDisk: Option<Config>): ConfigOutcome
      reads this
    {
      ConfigAnswer(store.configPath, configs, onDisk)
    }

    /** The config the queue was generated with: read once, then held for the life of the service. */
    method EntityResolutionConfig(onDisk: Option<Config>) returns (r: ConfigOutcome)
      modifies this`configs
      ensures r == old(ConfigNow(onDisk))
      ensures configs == HeldAfter(store.configPath, old(configs), onDisk)
    {
      if store.configPath.None? || store.configPath.value == "" {
        return Ok(None);
      }
      var path := store.configPath.value;
      if path in configs {
        assert configs[path := configs[path]] == configs;
        return Ok(Some(configs[path]));
      }
      if onDisk.None? {
        return Err(ConfigUnavailable);
      }
      configs := configs[path := onDisk.value];
      r := Ok(onDisk);
    }

    /** Resolves one persisted case inside one serialized write scope; refused calls write nothing. */
    method ResolveCase(request: Request, onDisk: Option<Config>, now: string) returns (r: Result<QueueStore, ReviewError>)
      requires WellStored(store)
      modifies this
      ensures r == Serviced(old(store), request, old(ConfigNow(onDisk)), now)
      ensures store == if r.Ok? then r.value else old(store)
      ensures configs == old(configs) || configs == HeldAfter(store.configPath, old(configs), onDisk)
    {
      var history := ReconstructHistory(store.cases, store.events);
      if history.Err? {
        return Err(history.error);
      }
      if !CasesCovered(CasesOf(store.cases), store.records) {
        return Err(BundleIntegrity);
      }
      var found := FindPersisted(store.cases, request.id);
      if found.None? {
        return Err(CaseNotFound);
      }
      if found.value.version != request.expectedVersion {
        return Err(StaleVersion);
      }
      var bundle := WorkflowState(CasesOf(store.cases), history.value.entries, history.value.nextSequence);
      assert LoadBundle(store) == Ok(bundle);
      var context := AuthorizationContext(request.decision, onDisk);
      if context.Err? {
        return Err(context.error);
      }
      var workflow := new ReviewWorkflow(bundle);
      var decided := workflow.ResolveCase(request.id, request.decision, request.reviewer, context.value);
      assert decided == Decide(store, request, old(ConfigNow(onDisk)));
      if decided.Err? {
        return Err(decided.error);
      }
      r := Write(store, request, decided.value, now);
      if r.Ok? {
        store := r.value;
      }
    }

    method AuthorizationContext(decision: HumanDecision, onDisk: Option<Config>) returns (r: Result<AuthContext, ReviewError>)
      requires WellStored(store)
      modifies this`configs
      ensures r == ContextFor(store, decision, old(ConfigNow(onDisk)))
      ensures configs == if decision.DecideMatch? && Rebuilt(store.snapshot).Ok?
                         then HeldAfter(store.configPath, old(configs), onDisk) else old(configs)
    {
      if !decision.DecideMatch? {
        return Ok(NO_CONTEXT);
      }
      var rebuilt := RebuildResolution(store.snapshot);
      if rebuilt.Err? {
        return Err(rebuilt.error);
      }
      var config := EntityResolutionConfig(onDisk);
      if config.Err? {
        return Err(config.error);
      }
      r := Ok(AuthContext(Some(rebuilt.value), Some(store.records), config.value));
    }
  }
}
