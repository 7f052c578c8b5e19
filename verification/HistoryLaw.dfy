/** Exactly which stored cases and events the audit trail can be rebuilt from. */
module HistoryLaw {
  import opened Results
  import opened Sorting
  import opened Review
  import opened Workflow
  import opened History
  import opened HistoryProofs

  // ---- what an event must say ----------------------------------------------------------------------------------

  /** The event tells of its case what the case tells of itself: the status its decision leads to, the decision, its
      number and its reviewer. */
  predicate TellsOf(e: ReviewEvent, c: ReviewCase) {
    e.caseId == c.id && c.resolution.Some? &&
    var r := c.resolution.value;
    c.status == StatusFor(r.decision) && e.eventType == EventTypeFor(r.decision) &&
    e.sequence == Some(r.sequence) && e.reviewer == r.reviewer
  }

  ghost predicate HasItsCase(e: ReviewEvent, cases: seq<ReviewCase>) {
    exists c :: c in cases && TellsOf(e, c)
  }

  lemma HasItsCaseExactlyWhen(e: ReviewEvent, cases: seq<ReviewCase>)
    requires UniqueIds(cases)
    ensures HasItsCase(e, cases)
            <==> FindCase(cases, e.caseId).Some? && Agrees(e, FindCase(cases, e.caseId).value)
  {
    var found := FindCase(cases, e.caseId);
    if HasItsCase(e, cases) {
      var c :| c in cases && TellsOf(e, c);
      SameIdSameCase(cases, c, found.value);
    }
  }

  ghost predicate AllHaveTheirCase(events: seq<ReviewEvent>, cases: seq<ReviewCase>) {
    forall e :: e in events && e.IsResolution() ==> HasItsCase(e, cases)
  }

  /** No case carries two resolution events. */
  ghost predicate OneEventEach(events: seq<ReviewEvent>) {
    forall i, j :: 0 <= i < j < |events| && events[i].IsResolution() && events[j].IsResolution() ==>
      events[i].caseId != events[j].caseId
  }

  ghost predicate ResolvesHere(events: seq<ReviewEvent>, id: CaseId, i: int) {
    0 <= i < |events| && events[i].IsResolution() && events[i].caseId == id
  }

  ghost predicate HasEvent(events: seq<ReviewEvent>, id: CaseId) {
    exists i :: ResolvesHere(events, id, i)
  }

  /** An index holds the resolution events of these, each under its own case. */
  ghost predicate Indexes(indexed: EventIndex, events: seq<ReviewEvent>) {
    (forall id :: id in indexed <==> HasEvent(events, id)) &&
    forall id :: id in indexed ==> indexed[id] in events && indexed[id].IsResolution() && indexed[id].caseId == id
  }

  lemma HasEventOneMore(events: seq<ReviewEvent>, id: CaseId)
    requires events != []
    ensures var last := events[|events| - 1];
            HasEvent(events, id) <==> HasEvent(events[..|events| - 1], id) || (last.IsResolution() && last.caseId == id)
  {
    var n := |events| - 1;
    if i :| ResolvesHere(events, id, i) {
      assert i == n || ResolvesHere(events[..n], id, i);
    }
    if i :| ResolvesHere(events[..n], id, i) {
      assert ResolvesHere(events, id, i);
    }
    if events[n].IsResolution() && events[n].caseId == id {
      assert ResolvesHere(events, id, n);
    }
  }

  lemma OneEventOneMore(events: seq<ReviewEvent>)
    requires events != []
    ensures var n := |events| - 1;
            OneEventEach(events) <==>
              OneEventEach(events[..n]) && (events[n].IsResolution() ==> !HasEvent(events[..n], events[n].caseId))
  {
    var n := |events| - 1;
    if OneEventEach(events) && events[n].IsResolution() {
      forall i
        ensures !ResolvesHere(events[..n], events[n].caseId, i)
      {
        assert 0 <= i < n ==> events[..n][i] == events[i];
      }
    }
    if OneEventEach(events[..n]) && (events[n].IsResolution() ==> !HasEvent(events[..n], events[n].caseId)) {
      forall i, j | 0 <= i < j < |events| && events[i].IsResolution() && events[j].IsResolution()
        ensures events[i].caseId != events[j].caseId
      {
        assert events[..n][i] == events[i];
        if j == n {
          assert !ResolvesHere(events[..n], events[n].caseId, i);
        } else {
          assert events[..n][j] == events[j];
        }
      }
    }
  }

  lemma AllHaveOneMore(events: seq<ReviewEvent>, cases: seq<ReviewCase>)
    requires events != []
    ensures var n := |events| - 1;
            AllHaveTheirCase(events, cases)
            <==> AllHaveTheirCase(events[..n], cases) && (events[n].IsResolution() ==> HasItsCase(events[n], cases))
  {
    assert forall e :: e in events <==> e in events[..|events| - 1] || e == events[|events| - 1];
  }

  lemma IndexesOneMore(indexed: EventIndex, events: seq<ReviewEvent>)
    requires events != [] && Indexes(indexed, events[..|events| - 1])
    ensures var last := events[|events| - 1];
            Indexes(if last.IsResolution() then indexed[last.caseId := last] else indexed, events)
  {
    var last := events[|events| - 1];
    forall id
      ensures HasEvent(events, id) <==> id in indexed || (last.IsResolution() && last.caseId == id)
    {
      HasEventOneMore(events, id);
    }
  }

  /** The resolution events can be indexed exactly when each tells of a stored case and no case carries two. */
  lemma {:induction false} IndexesExactlyWhen(cases: seq<ReviewCase>, events: seq<ReviewEvent>)
    requires UniqueIds(cases)
    ensures IndexEvents(cases, events).Ok? <==> AllHaveTheirCase(events, cases) && OneEventEach(events)
    ensures IndexEvents(cases, events).Ok? ==> Indexes(IndexEvents(cases, events).value, events)
    ensures IndexEvents(cases, events).Err? ==> IndexEvents(cases, events).error == HistoryIntegrity
    decreases |events|
  {
    if events == [] {
      assert forall id, i :: !ResolvesHere(events, id, i);
    } else {
      var n := |events| - 1;
      IndexesExactlyWhen(cases, events[..n]);
      AllHaveOneMore(events, cases);
      OneEventOneMore(events);
      HasItsCaseExactlyWhen(events[n], cases);
      if IndexEvents(cases, events[..n]).Ok? {
        IndexesOneMore(IndexEvents(cases, events[..n]).value, events);
      }
    }
  }

  // ---- what the cases must say --------------------------------------------------------------------------------------

  lemma {:induction false} CollectsExactlyWhen(cases: seq<ReviewCase>, indexed: EventIndex)
    ensures CollectEntries(cases, indexed).Ok?
            <==> forall c :: c in cases && !c.status.Pending? ==> EntryFor(c, indexed).Ok?
    ensures CollectEntries(cases, indexed).Err? ==> CollectEntries(cases, indexed).error == HistoryIntegrity
    decreases |cases|
  {
    if cases != [] {
      CollectsExactlyWhen(cases[..|cases| - 1], indexed);
      assert forall c :: c in cases <==> c in cases[..|cases| - 1] || c == cases[|cases| - 1];
    }
  }

  /** The cases that are no longer PENDING. */
  ghost function DecidedCases(cases: seq<ReviewCase>): set<ReviewCase> {
    set c | c in cases && !c.status.Pending?
  }

  lemma DecidedOneMore(cases: seq<ReviewCase>)
    requires UniqueIds(cases) && cases != []
    ensures var front, c := cases[..|cases| - 1], cases[|cases| - 1];
            |DecidedCases(cases)| == |DecidedCases(front)| + if c.status.Pending? then 0 else 1
  {
    var front, c := cases[..|cases| - 1], cases[|cases| - 1];
    assert cases == front + [c];
    assert forall i :: 0 <= i < |front| ==> front[i].id != c.id;
    if c.status.Pending? {
      assert DecidedCases(cases) == DecidedCases(front);
    } else {
      assert DecidedCases(cases) == DecidedCases(front) + {c};
    }
  }

  lemma {:induction false} DecidedAreCollected(cases: seq<ReviewCase>, indexed: EventIndex)
    requires UniqueIds(cases) && CollectEntries(cases, indexed).Ok?
    ensures |CollectEntries(cases, indexed).value| == |DecidedCases(cases)|
    decreases |cases|
  {
    if cases != [] {
      DecidedAreCollected(cases[..|cases| - 1], indexed);
      DecidedOneMore(cases);
    }
  }

  /** The decided cases hold the numbers 1..n, one each, where n is how many they are. */
  ghost predicate Numbered(cases: seq<ReviewCase>) {
    && (forall c :: c in cases && !c.status.Pending? ==>
          c.resolution.Some? && 1 <= c.resolution.value.sequence <= |DecidedCases(cases)|)
    && (forall c, d, n :: c in cases && d in cases && ResolvedAs(c, n) && ResolvedAs(d, n) ==> c == d)
  }

  /** Entries under distinct numbers. */
  ghost predicate DistinctNumbers(entries: seq<AuditEntry>) {
    forall i, j :: 0 <= i < j < |entries| ==> entries[i].sequence != entries[j].sequence
  }

  lemma {:induction false} CollectedDiffer(cases: seq<ReviewCase>, n: nat, indexed: EventIndex)
    requires UniqueIds(cases) && IndexAgrees(cases, indexed) && Numbered(cases) && n <= |cases|
    requires CollectEntries(cases[..n], indexed).Ok?
    ensures DistinctNumbers(CollectEntries(cases[..n], indexed).value)
    decreases n
  {
    if n > 0 {
      var front, c := cases[..n - 1], cases[n - 1];
      assert cases[..n][..n - 1] == front;
      CollectedDiffer(cases, n - 1, indexed);
      if !c.status.Pending? {
        var entries := CollectEntries(front, indexed).value;
        CollectedNamesItsCase(cases, c, indexed);
        forall i | 0 <= i < |entries|
          ensures entries[i].sequence != EntryFor(c, indexed).value.sequence
        {
          EarlierNumberDiffers(cases, n - 1, indexed, entries[i]);
        }
      }
    }
  }

  lemma NumbersDiffer(cases: seq<ReviewCase>, c: ReviewCase, d: ReviewCase)
    requires Numbered(cases) && c in cases && d in cases && c != d && !c.status.Pending? && !d.status.Pending?
    ensures c.resolution.Some? && d.resolution.Some? && c.resolution.value.sequence != d.resolution.value.sequence
  {
    assert ResolvedAs(c, c.resolution.value.sequence) && ResolvedAs(d, d.resolution.value.sequence);
  }

  lemma EarlierCaseDiffers(cases: seq<ReviewCase>, n: nat, d: ReviewCase)
    requires UniqueIds(cases) && n < |cases| && d in cases[..n]
    ensures d in cases && d != cases[n]
  {
    var j :| 0 <= j < n && cases[..n][j] == d;
    assert cases[j].id != cases[n].id;
  }

  lemma EarlierNumberDiffers(cases: seq<ReviewCase>, n: nat, indexed: EventIndex, entry: AuditEntry)
    requires UniqueIds(cases) && IndexAgrees(cases, indexed) && Numbered(cases) && n < |cases|
    requires CollectEntries(cases[..n], indexed).Ok? && entry in CollectEntries(cases[..n], indexed).value
    requires !cases[n].status.Pending? && EntryFor(cases[n], indexed).Ok?
    ensures entry.sequence != EntryFor(cases[n], indexed).value.sequence
  {
    CollectedAre(cases[..n], indexed, entry);
    var d :| d in cases[..n] && !d.status.Pending? && EntryFor(d, indexed) == Ok(entry);
    EarlierCaseDiffers(cases, n, d);
    CollectedNamesItsCase(cases, d, indexed);
    CollectedNamesItsCase(cases, cases[n], indexed);
    NumbersDiffer(cases, d, cases[n]);
  }

  lemma RepeatCounts(entries: seq<AuditEntry>, i: nat, j: nat)
    requires i < j < |entries| && entries[i] == entries[j]
    ensures multiset(entries)[entries[i]] >= 2
  {
    var e := entries[i];
    assert entries == entries[..i] + [e] + entries[i + 1..j] + [e] + entries[j + 1..];
    assert multiset(entries) == multiset(entries[..i]) + multiset{e} + multiset(entries[i + 1..j]) + multiset{e}
                                + multiset(entries[j + 1..]);
  }

  lemma DistinctSurvivesSorting(entries: seq<AuditEntry>, sorted: seq<AuditEntry>)
    requires DistinctNumbers(entries) && multiset(sorted) == multiset(entries)
    ensures DistinctNumbers(sorted)
  {
    forall i, j | 0 <= i < j < |sorted|
      ensures sorted[i].sequence != sorted[j].sequence
    {
      assert sorted[i] in multiset(entries) && sorted[j] in multiset(entries);
      AtMostOnce(entries, sorted[i]);
      if sorted[i] == sorted[j] {
        RepeatCounts(sorted, i, j);
      }
    }
  }

  /** Ascending distinct numbers between 1 and how many there are leave no gap. */
  lemma {:induction false} NoRoomForGaps(sorted: seq<AuditEntry>, i: nat)
    requires Ascending(sorted) && DistinctNumbers(sorted) && i < |sorted|
    requires forall k :: 0 <= k < |sorted| ==> 1 <= sorted[k].sequence <= |sorted|
    ensures i + 1 <= sorted[i].sequence
    ensures sorted[|sorted| - 1 - i].sequence <= |sorted| - i
    decreases i
  {
    if i > 0 {
      NoRoomForGaps(sorted, i - 1);
      assert InSequence(sorted[i - 1], sorted[i]);
      assert InSequence(sorted[|sorted| - 1 - i], sorted[|sorted| - i]);
    }
  }

  lemma DistinctIsContiguous(sorted: seq<AuditEntry>)
    requires Ascending(sorted) && DistinctNumbers(sorted)
    requires forall k :: 0 <= k < |sorted| ==> 1 <= sorted[k].sequence <= |sorted|
    ensures Contiguous(sorted)
  {
    forall i | 0 <= i < |sorted|
      ensures sorted[i].sequence == i + 1
    {
      NoRoomForGaps(sorted, i);
      NoRoomForGaps(sorted, |sorted| - 1 - i);
    }
  }

  lemma ContiguousExactlyWhenNumbered(cases: seq<ReviewCase>, indexed: EventIndex)
    requires UniqueIds(cases) && IndexAgrees(cases, indexed) && CollectEntries(cases, indexed).Ok?
    ensures Contiguous(SortBySequence(CollectEntries(cases, indexed).value)) <==> Numbered(cases)
  {
    var entries := CollectEntries(cases, indexed).value;
    var sorted := SortBySequence(entries);
    SortBySequenceSorts(entries);
    DecidedAreCollected(cases, indexed);
    SameSize(sorted, entries);
    if Contiguous(sorted) {
      ContiguousIsNumbered(cases, indexed, sorted);
    }
    if Numbered(cases) {
      assert cases[..|cases|] == cases;
      CollectedDiffer(cases, |cases|, indexed);
      DistinctSurvivesSorting(entries, sorted);
      forall k | 0 <= k < |sorted|
        ensures 1 <= sorted[k].sequence <= |sorted|
      {
        assert sorted[k] in multiset(entries);
        CollectedAre(cases, indexed, sorted[k]);
        var c :| c in cases && !c.status.Pending? && EntryFor(c, indexed) == Ok(sorted[k]);
        CollectedNamesItsCase(cases, c, indexed);
      }
      DistinctIsContiguous(sorted);
    }
  }

  lemma ContiguousIsNumbered(cases: seq<ReviewCase>, indexed: EventIndex, sorted: seq<AuditEntry>)
    requires UniqueIds(cases) && IndexAgrees(cases, indexed) && CollectEntries(cases, indexed).Ok?
    requires Contiguous(sorted) && multiset(sorted) == multiset(CollectEntries(cases, indexed).value)
    requires |sorted| == |DecidedCases(cases)|
    ensures Numbered(cases)
  {
    forall c | c in cases && !c.status.Pending?
      ensures c.resolution.Some? && 1 <= c.resolution.value.sequence <= |sorted|
      ensures sorted[c.resolution.value.sequence - 1].caseId == c.id
    {
      NumberOf(cases, indexed, sorted, c);
    }
    forall c, d, n | c in cases && d in cases && ResolvedAs(c, n) && ResolvedAs(d, n)
      ensures c == d
    {
      SameIdSameCase(cases, c, d);
    }
  }

  // ---- the law ----------------------------------------------------------------------------------------------------------

  /** The audit entry a resolution event carries names the two records of its case. */
  ghost predicate NamesThePair(e: ReviewEvent, cases: seq<ReviewCase>) {
    forall c :: c in cases && c.id == e.caseId ==>
      e.payload.Some? && e.payload.value.a == c.pair.a && e.payload.value.b == c.pair.b
  }

  ghost predicate AllNameTheirPair(events: seq<ReviewEvent>, cases: seq<ReviewCase>) {
    forall e :: e in events && e.IsResolution() ==> NamesThePair(e, cases)
  }

  lemma EntriesExactlyWhen(cases: seq<ReviewCase>, events: seq<ReviewEvent>, indexed: EventIndex)
    requires UniqueIds(cases) && Indexes(indexed, events) && IndexAgrees(cases, indexed) && OneEventEach(events)
    requires forall c :: c in cases && !c.status.Pending? ==> c.resolution.Some?
    ensures (forall c :: c in cases && !c.status.Pending? ==> EntryFor(c, indexed).Ok?) <==> AllNameTheirPair(events, cases)
  {
    forall e | e in events && e.IsResolution()
      ensures e.caseId in indexed && indexed[e.caseId] == e
    {
      IndexedIsTheEvent(events, indexed, e);
    }
    if forall c :: c in cases && !c.status.Pending? ==> EntryFor(c, indexed).Ok? {
      forall e, c | e in events && e.IsResolution() && c in cases && c.id == e.caseId
        ensures e.payload.Some? && e.payload.value.a == c.pair.a && e.payload.value.b == c.pair.b
      {
        assert indexed[e.caseId] == e;
        SameIdSameCase(cases, c, FindCase(cases, e.caseId).value);
        assert !c.status.Pending? && EntryFor(c, indexed).Ok?;
      }
    }
    if AllNameTheirPair(events, cases) {
      forall c | c in cases && !c.status.Pending?
        ensures EntryFor(c, indexed).Ok?
      {
        if c.id in indexed {
          assert NamesThePair(indexed[c.id], cases);
        }
      }
    }
  }

  lemma IndexedIsTheEvent(events: seq<ReviewEvent>, indexed: EventIndex, e: ReviewEvent)
    requires Indexes(indexed, events) && OneEventEach(events) && e in events && e.IsResolution()
    ensures e.caseId in indexed && indexed[e.caseId] == e
  {
    var i :| 0 <= i < |events| && events[i] == e;
    assert ResolvesHere(events, e.caseId, i);
    assert HasEvent(events, e.caseId);
    var j :| 0 <= j < |events| && events[j] == indexed[e.caseId];
    assert i == j;
  }

  /** Cases and events tell one story. */
  ghost predicate Consistent(cases: seq<ReviewCase>, events: seq<ReviewEvent>) {
    AllHaveTheirCase(events, cases) && OneEventEach(events) && AllNameTheirPair(events, cases) && Numbered(cases)
  }

  /** Reconstruction succeeds exactly when every resolution event tells of a stored case what the case tells of itself, no
      case carries two, and the decided cases are numbered 1..n; in every other case it fails closed. A second event, an
      event that names another reviewer, another number, another decision or another pair, and an event of an unknown
      case each make it fail. */
  lemma ReconstructsExactlyWhen(cases: seq<ReviewCase>, events: seq<ReviewEvent>)
    requires UniqueIds(cases) && forall e :: e in events ==> e.Valid()
    ensures Reconstructed(cases, events).Ok? <==> Consistent(cases, events)
    ensures Reconstructed(cases, events).Err? ==> Reconstructed(cases, events).error == HistoryIntegrity
  {
    var indexed := IndexEvents(cases, events);
    IndexesExactlyWhen(cases, events);
    if indexed.Ok? {
      IndexedAgrees(cases, events);
      CollectsExactlyWhen(cases, indexed.value);
      if forall c :: c in cases && !c.status.Pending? ==> c.resolution.Some? {
        EntriesExactlyWhen(cases, events, indexed.value);
      } else {
        UnresolvedIsNotCollected(cases, indexed.value);
      }
      if CollectEntries(cases, indexed.value).Ok? {
        ContiguousExactlyWhenNumbered(cases, indexed.value);
      }
    }
  }

  lemma UnresolvedIsNotCollected(cases: seq<ReviewCase>, indexed: EventIndex)
    requires UniqueIds(cases) && IndexAgrees(cases, indexed)
    requires exists c :: c in cases && !c.status.Pending? && c.resolution.None?
    ensures exists c :: c in cases && !c.status.Pending? && EntryFor(c, indexed).Err?
  {
    var c :| c in cases && !c.status.Pending? && c.resolution.None?;
    if c.id in indexed {
      SameIdSameCase(cases, c, FindCase(cases, c.id).value);
    }
    assert EntryFor(c, indexed).Err?;
  }

  /** What the rebuilt trail says of a decided case, at the place of its number: the entry its event carries, where there
      is one, and otherwise what the case says itself. */
  lemma EntryComesFromEventOrCase(
    cases: seq<ReviewCase>, events: seq<ReviewEvent>, history: ReconstructedHistory, c: ReviewCase)
    requires UniqueIds(cases) && forall e :: e in events ==> e.Valid()
    requires Reconstructed(cases, events) == Ok(history) && c in cases && !c.status.Pending?
    ensures c.resolution.Some? && 1 <= c.resolution.value.sequence <= |history.entries|
    ensures forall e :: e in events && e.IsResolution() && e.caseId == c.id ==>
              e.payload == Some(history.entries[c.resolution.value.sequence - 1])
    ensures !HasEvent(events, c.id) ==> history.entries[c.resolution.value.sequence - 1] == EntryOf(c)
  {
    var indexed := IndexEvents(cases, events).value;
    IndexesExactlyWhen(cases, events);
    IndexedAgrees(cases, events);
    CollectedAtItsNumber(cases, indexed, history.entries, c);
    forall e | e in events && e.IsResolution() && e.caseId == c.id
      ensures e.payload == Some(history.entries[c.resolution.value.sequence - 1])
    {
      IndexedIsTheEvent(events, indexed, e);
      assert EntryFor(c, indexed) == EntryFromEvent(e, c);
    }
  }

  lemma CollectedAtItsNumber(cases: seq<ReviewCase>, indexed: EventIndex, sorted: seq<AuditEntry>, c: ReviewCase)
    requires UniqueIds(cases) && IndexAgrees(cases, indexed) && CollectEntries(cases, indexed).Ok?
    requires sorted == SortBySequence(CollectEntries(cases, indexed).value) && Contiguous(sorted)
    requires c in cases && !c.status.Pending?
    ensures c.resolution.Some? && 1 <= c.resolution.value.sequence <= |sorted|
    ensures EntryFor(c, indexed) == Ok(sorted[c.resolution.value.sequence - 1])
  {
    SortBySequenceSorts(CollectEntries(cases, indexed).value);
    AllCollected(cases, indexed, c);
    CollectedAre(cases, indexed, EntryFor(c, indexed).value);
    CollectedNamesItsCase(cases, c, indexed);
    assert EntryFor(c, indexed).value in multiset(sorted);
    var k :| 0 <= k < |sorted| && sorted[k] == EntryFor(c, indexed).value;
  }

  /** A second resolution event of one case. */
  lemma SecondEventIsRejected(cases: seq<ReviewCase>, events: seq<ReviewEvent>, i: nat, j: nat)
    requires UniqueIds(cases) && i < j < |events|
    requires events[i].IsResolution() && events[j].IsResolution() && events[i].caseId == events[j].caseId
    ensures Reconstructed(cases, events) == Err(HistoryIntegrity)
  {
    IndexesExactlyWhen(cases, events);
    assert !OneEventEach(events);
  }

  /** An event that names another reviewer. */
  lemma OtherReviewerIsRejected(cases: seq<ReviewCase>, events: seq<ReviewEvent>, i: nat, c: ReviewCase)
    requires UniqueIds(cases) && i < |events| && events[i].IsResolution()
    requires c in cases && c.id == events[i].caseId && c.resolution.Some? && c.resolution.value.reviewer != events[i].reviewer
    ensures Reconstructed(cases, events) == Err(HistoryIntegrity)
  {
    IndexesExactlyWhen(cases, events);
    var e := events[i];
    assert e in events;
    forall d | d in cases
      ensures !TellsOf(e, d)
    {
      SameIdSameCase(cases, c, d);
    }
  }
}
