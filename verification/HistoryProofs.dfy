/** What the rebuilt audit trail is worth: it is the workflow's own trail, it does not depend on which
    resolution events survive, and it numbers the resolved cases 1..n without gap or repeat. */
module HistoryProofs {
  import opened Results
  import opened Sorting
  import opened Records
  import opened Resolution
  import opened Review
  import opened Workflow
  import opened History

  // ---- sorting by sequence -------------------------------------------------------------------------------------------

  predicate Ascending(entries: seq<AuditEntry>) {
    SortedBy(entries, InSequence)
  }

  lemma SortBySequenceSorts(entries: seq<AuditEntry>)
    ensures Ascending(SortBySequence(entries))
    ensures multiset(SortBySequence(entries)) == multiset(entries)
  {
    SortSorts(entries, InSequence);
    SortKeepsAll(entries, InSequence);
  }

  lemma SortedEndsLikeTrail(sorted: seq<AuditEntry>, trail: seq<AuditEntry>)
    requires Ascending(sorted) && Contiguous(trail) && multiset(sorted) == multiset(trail) && trail != []
    ensures |sorted| == |trail| && sorted[|trail| - 1] == trail[|trail| - 1]
  {
    SameSize(sorted, trail);
    var n := |trail| - 1;
    assert trail[n] in multiset(sorted) && sorted[n] in multiset(trail);
    var i :| 0 <= i <= n && sorted[i] == trail[n];
    var j :| 0 <= j <= n && trail[j] == sorted[n];
  }

  lemma DropSameLast<T>(s: seq<T>, t: seq<T>)
    requires multiset(s) == multiset(t) && s != [] && t != [] && s[|s| - 1] == t[|t| - 1]
    ensures multiset(s[..|s| - 1]) == multiset(t[..|t| - 1])
  {
    var x := s[|s| - 1];
    assert s == s[..|s| - 1] + [x] && t == t[..|t| - 1] + [x];
    assert multiset(s) == multiset(s[..|s| - 1]) + multiset{x};
    assert multiset(t) == multiset(t[..|t| - 1]) + multiset{x};
    assert multiset(s[..|s| - 1]) == multiset(s) - multiset{x};
  }

  /** A sorted permutation of a contiguously numbered trail is that trail. */
  lemma {:induction false} SortedIsTrail(sorted: seq<AuditEntry>, trail: seq<AuditEntry>)
    requires Ascending(sorted) && Contiguous(trail) && multiset(sorted) == multiset(trail)
    ensures sorted == trail
    decreases |trail|
  {
    SameSize(sorted, trail);
    if trail != [] {
      var n := |trail| - 1;
      SortedEndsLikeTrail(sorted, trail);
      DropSameLast(sorted, trail);
      SortedIsTrail(sorted[..n], trail[..n]);
      assert sorted == sorted[..n] + [sorted[n]] && trail == trail[..n] + [trail[n]];
    }
  }

  lemma SameSize<T>(s: seq<T>, t: seq<T>)
    requires multiset(s) == multiset(t)
    ensures |s| == |t|
  {
    assert |multiset(s)| == |s| && |multiset(t)| == |t|;
  }

  predicate NoRepeats(entries: seq<AuditEntry>) {
    forall i, j :: 0 <= i < j < |entries| ==> entries[i] != entries[j]
  }

  lemma {:induction false} AtMostOnce(entries: seq<AuditEntry>, e: AuditEntry)
    requires NoRepeats(entries)
    ensures multiset(entries)[e] == if e in entries then 1 else 0
    decreases |entries|
  {
    if entries != [] {
      var n := |entries| - 1;
      assert entries == entries[..n] + [entries[n]];
      AtMostOnce(entries[..n], e);
    }
  }

  lemma SameMembersSameMultiset(s: seq<AuditEntry>, t: seq<AuditEntry>)
    requires NoRepeats(s) && NoRepeats(t) && forall e :: e in s <==> e in t
    ensures multiset(s) == multiset(t)
  {
    forall e
      ensures multiset(s)[e] == multiset(t)[e]
    {
      AtMostOnce(s, e);
      AtMostOnce(t, e);
    }
  }

  // ---- a trail the stored cases tell faithfully ------------------------------------------------------------------------

  /** A pending case carries no resolution; a decided one carries the resolution its trail entry records. */
  ghost predicate TellsEntry(c: ReviewCase, trail: seq<AuditEntry>) {
    if c.status.Pending? then c.resolution.None?
    else
      && c.resolution.Some? && c.status == StatusFor(c.resolution.value.decision)
      && 1 <= c.resolution.value.sequence <= |trail|
      && trail[c.resolution.value.sequence - 1] == EntryOf(c)
  }

  ghost predicate HasCase(entry: AuditEntry, cases: seq<ReviewCase>) {
    exists c :: c in cases && !c.status.Pending? && c.resolution.Some? && EntryOf(c) == entry
  }

  /** The trail is numbered 1..n and is exactly what the resolved cases say about themselves. */
  ghost predicate Faithful(cases: seq<ReviewCase>, trail: seq<AuditEntry>) {
    && UniqueIds(cases) && Contiguous(trail)
    && (forall c :: c in cases ==> TellsEntry(c, trail))
    && (forall i :: 0 <= i < |trail| ==> HasCase(trail[i], cases))
  }

  /** Every stored resolution event was made from a trail entry, and no case has two. */
  ghost predicate EventsTell(events: seq<ReviewEvent>, trail: seq<AuditEntry>) {
    && (forall e :: e in events && e.IsResolution() ==> exists i :: 0 <= i < |trail| && e == EventFrom(trail[i], e.occurredAt))
    && (forall i, j :: 0 <= i < j < |events| && events[i].IsResolution() && events[j].IsResolution() ==>
          events[i].caseId != events[j].caseId)
  }

  function ResolvedEntries(cases: seq<ReviewCase>): seq<AuditEntry>
    requires forall c :: c in cases && !c.status.Pending? ==> c.resolution.Some?
  {
    if cases == [] then [] else
      var c := cases[|cases| - 1];
      ResolvedEntries(cases[..|cases| - 1]) + if c.status.Pending? then [] else [EntryOf(c)]
  }

  lemma {:induction false} ResolvedEntryIs(cases: seq<ReviewCase>, entry: AuditEntry)
    requires forall c :: c in cases && !c.status.Pending? ==> c.resolution.Some?
    ensures entry in ResolvedEntries(cases) <==> exists c :: c in cases && !c.status.Pending? && EntryOf(c) == entry
    decreases |cases|
  {
    if cases != [] {
      ResolvedEntryIs(cases[..|cases| - 1], entry);
      assert forall c :: c in cases <==> c in cases[..|cases| - 1] || c == cases[|cases| - 1];
    }
  }

  lemma {:induction false} ResolvedEntriesDiffer(cases: seq<ReviewCase>)
    requires UniqueIds(cases) && forall c :: c in cases && !c.status.Pending? ==> c.resolution.Some?
    ensures NoRepeats(ResolvedEntries(cases))
    decreases |cases|
  {
    if cases != [] {
      var front, c := cases[..|cases| - 1], cases[|cases| - 1];
      ResolvedEntriesDiffer(front);
      if !c.status.Pending? {
        ResolvedEntryIs(front, EntryOf(c));
        forall d | d in front
          ensures d.id != c.id
        {
        }
      }
    }
  }

  /** Sorting what the resolved cases say gives the trail back. */
  lemma SortedCasesAreTrail(cases: seq<ReviewCase>, trail: seq<AuditEntry>)
    requires Faithful(cases, trail)
    ensures SortBySequence(ResolvedEntries(cases)) == trail
  {
    var entries := ResolvedEntries(cases);
    ResolvedEntriesDiffer(cases);
    forall e
      ensures e in entries <==> e in trail
    {
      ResolvedEntryIs(cases, e);
      if e in trail {
        var i :| 0 <= i < |trail| && trail[i] == e;
        assert HasCase(trail[i], cases);
      }
    }
    SameMembersSameMultiset(entries, trail);
    SortBySequenceSorts(entries);
    SortedIsTrail(SortBySequence(entries), trail);
  }

  // ---- events agree with the cases they describe ---------------------------------------------------------------------

  /** An index holding only events of the trail, each under its own case. */
  ghost predicate IndexTells(indexed: EventIndex, events: seq<ReviewEvent>, trail: seq<AuditEntry>) {
    forall id :: id in indexed ==> FiledRightly(indexed[id], id, events, trail)
  }

  /** A resolution event of that case, among these events, made from an entry of the trail. */
  ghost predicate FiledRightly(e: ReviewEvent, id: CaseId, events: seq<ReviewEvent>, trail: seq<AuditEntry>) {
    e.caseId == id && e.IsResolution() && e in events &&
    exists i :: 0 <= i < |trail| && e == EventFrom(trail[i], e.occurredAt)
  }

  lemma EventAgrees(cases: seq<ReviewCase>, trail: seq<AuditEntry>, i: nat, occurredAt: string) returns (c: ReviewCase)
    requires Faithful(cases, trail) && i < |trail|
    ensures FindCase(cases, trail[i].caseId) == Some(c)
    ensures !c.status.Pending? && c.resolution.Some? && EntryOf(c) == trail[i]
    ensures Agrees(EventFrom(trail[i], occurredAt), c)
  {
    assert HasCase(trail[i], cases);
    c :| c in cases && !c.status.Pending? && c.resolution.Some? && EntryOf(c) == trail[i];
    assert TellsEntry(c, trail);
    SameIdSameCase(cases, c, FindCase(cases, trail[i].caseId).value);
  }

  lemma EventsTellPrefix(events: seq<ReviewEvent>, trail: seq<AuditEntry>, n: nat)
    requires EventsTell(events, trail) && n <= |events|
    ensures EventsTell(events[..n], trail)
  {
  }

  /** No earlier event is about the case of the last one. */
  lemma NotYetIndexed(indexed: EventIndex, events: seq<ReviewEvent>, n: nat, trail: seq<AuditEntry>)
    requires n < |events| && EventsTell(events, trail) && IndexTells(indexed, events[..n], trail)
    requires events[n].IsResolution()
    ensures forall id :: id in indexed ==> id != events[n].caseId
  {
    forall id | id in indexed
      ensures id != events[n].caseId
    {
      assert FiledRightly(indexed[id], id, events[..n], trail);
      var k :| 0 <= k < n && events[..n][k] == indexed[id];
      assert events[k].IsResolution();
    }
  }

  lemma MoreEventsFileAlike(
    indexed: EventIndex, fewer: seq<ReviewEvent>, more: seq<ReviewEvent>, trail: seq<AuditEntry>)
    requires IndexTells(indexed, fewer, trail) && forall e :: e in fewer ==> e in more
    ensures IndexTells(indexed, more, trail)
  {
    forall id | id in indexed
      ensures FiledRightly(indexed[id], id, more, trail)
    {
      assert FiledRightly(indexed[id], id, fewer, trail);
    }
  }

  lemma FileOne(indexed: EventIndex, e: ReviewEvent, events: seq<ReviewEvent>, trail: seq<AuditEntry>)
    requires IndexTells(indexed, events, trail) && FiledRightly(e, e.caseId, events, trail)
    ensures IndexTells(indexed[e.caseId := e], events, trail)
  {
  }

  lemma EventComesFromTrail(events: seq<ReviewEvent>, n: nat, trail: seq<AuditEntry>) returns (i: nat)
    requires n < |events| && EventsTell(events, trail) && events[n].IsResolution()
    ensures i < |trail| && events[n] == EventFrom(trail[i], events[n].occurredAt)
    ensures FiledRightly(events[n], events[n].caseId, events[..n + 1], trail)
  {
    assert events[n] in events;
    i :| 0 <= i < |trail| && events[n] == EventFrom(trail[i], events[n].occurredAt);
    assert events[..n + 1][n] == events[n];
  }

  lemma AgreeingEventIsIndexed(cases: seq<ReviewCase>, indexed: EventIndex, e: ReviewEvent, c: ReviewCase)
    requires e.IsResolution() && e.caseId !in indexed
    requires FindCase(cases, e.caseId) == Some(c) && Agrees(e, c)
    ensures IndexEvent(cases, indexed, e) == Ok(indexed[e.caseId := e])
  {
  }

  lemma IndexOneMore(
    cases: seq<ReviewCase>, indexed: EventIndex, events: seq<ReviewEvent>, n: nat, trail: seq<AuditEntry>)
    requires Faithful(cases, trail) && n < |events| && EventsTell(events, trail)
    requires IndexTells(indexed, events[..n], trail)
    ensures IndexEvent(cases, indexed, events[n]) ==
      Ok(if events[n].IsResolution() then indexed[events[n].caseId := events[n]] else indexed)
  {
    var e := events[n];
    if e.IsResolution() {
      var i := EventComesFromTrail(events, n, trail);
      var c := EventAgrees(cases, trail, i, e.occurredAt);
      NotYetIndexed(indexed, events, n, trail);
      AgreeingEventIsIndexed(cases, indexed, e, c);
    }
  }

  lemma IndexStaysRight(indexed: EventIndex, events: seq<ReviewEvent>, n: nat, trail: seq<AuditEntry>)
    requires n < |events| && EventsTell(events, trail) && IndexTells(indexed, events[..n], trail)
    ensures IndexTells(indexed, events[..n + 1], trail)
    ensures events[n].IsResolution() ==> IndexTells(indexed[events[n].caseId := events[n]], events[..n + 1], trail)
  {
    assert events[..n + 1] == events[..n] + [events[n]];
    MoreEventsFileAlike(indexed, events[..n], events[..n + 1], trail);
    if events[n].IsResolution() {
      var i := EventComesFromTrail(events, n, trail);
      FileOne(indexed, events[n], events[..n + 1], trail);
    }
  }

  lemma {:induction false} IndexingSucceeds(cases: seq<ReviewCase>, events: seq<ReviewEvent>, trail: seq<AuditEntry>)
    requires Faithful(cases, trail) && EventsTell(events, trail)
    ensures IndexEvents(cases, events).Ok? && IndexTells(IndexEvents(cases, events).value, events, trail)
    decreases |events|
  {
    if events != [] {
      var n := |events| - 1;
      EventsTellPrefix(events, trail, n);
      IndexingSucceeds(cases, events[..n], trail);
      var indexed := IndexEvents(cases, events[..n]).value;
      IndexOneMore(cases, indexed, events, n, trail);
      IndexStaysRight(indexed, events, n, trail);
      assert events[..n + 1] == events;
    }
  }

  lemma EntryIsTheCases(cases: seq<ReviewCase>, c: ReviewCase, indexed: EventIndex, events: seq<ReviewEvent>, trail: seq<AuditEntry>)
    requires Faithful(cases, trail) && IndexTells(indexed, events, trail) && c in cases && !c.status.Pending?
    ensures c.resolution.Some? && EntryFor(c, indexed) == Ok(EntryOf(c))
  {
    assert TellsEntry(c, trail);
    if c.id in indexed {
      var e := indexed[c.id];
      var i :| 0 <= i < |trail| && e == EventFrom(trail[i], e.occurredAt);
      var d := EventAgrees(cases, trail, i, e.occurredAt);
      SameIdSameCase(cases, c, d);
    }
  }

  lemma {:induction false} CollectingSucceeds(
    cases: seq<ReviewCase>, n: nat, indexed: EventIndex, events: seq<ReviewEvent>, trail: seq<AuditEntry>)
    requires Faithful(cases, trail) && IndexTells(indexed, events, trail) && n <= |cases|
    ensures forall c :: c in cases[..n] && !c.status.Pending? ==> c.resolution.Some?
    ensures CollectEntries(cases[..n], indexed) == Ok(ResolvedEntries(cases[..n]))
    decreases n
  {
    forall c | c in cases && !c.status.Pending?
      ensures c.resolution.Some?
    {
      assert TellsEntry(c, trail);
    }
    if n > 0 {
      CollectingSucceeds(cases, n - 1, indexed, events, trail);
      assert cases[..n][..n - 1] == cases[..n - 1];
      if !cases[n - 1].status.Pending? {
        EntryIsTheCases(cases, cases[n - 1], indexed, events, trail);
      } else {
        assert ResolvedEntries(cases[..n - 1]) + [] == ResolvedEntries(cases[..n - 1]);
      }
    }
  }

  /** Reconstruction returns the trail the cases and events were written from. */
  lemma ReconstructionReturnsTrail(cases: seq<ReviewCase>, events: seq<ReviewEvent>, trail: seq<AuditEntry>)
    requires Faithful(cases, trail) && EventsTell(events, trail)
    ensures Reconstructed(cases, events) == Ok(ReconstructedHistory(trail, |trail| + 1))
  {
    IndexingSucceeds(cases, events, trail);
    CollectingSucceeds(cases, |cases|, IndexEvents(cases, events).value, events, trail);
    assert cases[..|cases|] == cases;
    SortedCasesAreTrail(cases, trail);
  }

  // ---- the two records are redundant -----------------------------------------------------------------------------------

  /** `events` with the unflagged ones deleted, order kept. */
  function Keep(events: seq<ReviewEvent>, kept: seq<bool>): seq<ReviewEvent>
    requires |kept| == |events|
  {
    if events == [] then [] else
      var n := |events| - 1;
      Keep(events[..n], kept[..n]) + if kept[n] then [events[n]] else []
  }

  lemma {:induction false} KeptComesFrom(events: seq<ReviewEvent>, kept: seq<bool>, e: ReviewEvent)
    requires |kept| == |events| && e in Keep(events, kept)
    ensures e in events
    decreases |events|
  {
    var n := |events| - 1;
    if e in Keep(events[..n], kept[..n]) {
      KeptComesFrom(events[..n], kept[..n], e);
    }
  }

  lemma {:induction false} DeletingKeepsTelling(events: seq<ReviewEvent>, kept: seq<bool>, trail: seq<AuditEntry>)
    requires |kept| == |events| && EventsTell(events, trail)
    ensures EventsTell(Keep(events, kept), trail)
    decreases |events|
  {
    if events != [] {
      var n := |events| - 1;
      EventsTellPrefix(events, trail, n);
      DeletingKeepsTelling(events[..n], kept[..n], trail);
      var front := Keep(events[..n], kept[..n]);
      if kept[n] {
        forall i | 0 <= i < |front| && front[i].IsResolution() && events[n].IsResolution()
          ensures front[i].caseId != events[n].caseId
        {
          KeptComesFrom(events[..n], kept[..n], front[i]);
        }
        OneMoreTells(front, events[n], trail);
      } else {
        assert front + [] == front;
      }
    }
  }

  lemma OneMoreTells(events: seq<ReviewEvent>, e: ReviewEvent, trail: seq<AuditEntry>)
    requires EventsTell(events, trail)
    requires e.IsResolution() ==> exists i :: 0 <= i < |trail| && e == EventFrom(trail[i], e.occurredAt)
    requires forall i :: 0 <= i < |events| && events[i].IsResolution() && e.IsResolution() ==> events[i].caseId != e.caseId
    ensures EventsTell(events + [e], trail)
  {
  }

  /** Deleting any events leaves the reconstruction unchanged. */
  lemma EventsAreRedundant(cases: seq<ReviewCase>, events: seq<ReviewEvent>, kept: seq<bool>, trail: seq<AuditEntry>)
    requires Faithful(cases, trail) && EventsTell(events, trail) && |kept| == |events|
    ensures Reconstructed(cases, Keep(events, kept)) == Reconstructed(cases, events)
  {
    DeletingKeepsTelling(events, kept, trail);
    ReconstructionReturnsTrail(cases, Keep(events, kept), trail);
    ReconstructionReturnsTrail(cases, events, trail);
  }

  // ---- success alone already means a bijection -----------------------------------------------------------------------

  /** The index after success: events filed under their own case, agreeing with it. */
  ghost predicate IndexAgrees(cases: seq<ReviewCase>, indexed: EventIndex) {
    forall id :: id in indexed ==>
      && indexed[id].caseId == id && indexed[id].IsResolution() && indexed[id].Valid()
      && FindCase(cases, id).Some? && Agrees(indexed[id], FindCase(cases, id).value)
  }

  lemma {:induction false} IndexedAgrees(cases: seq<ReviewCase>, events: seq<ReviewEvent>)
    requires IndexEvents(cases, events).Ok? && forall e :: e in events ==> e.Valid()
    ensures IndexAgrees(cases, IndexEvents(cases, events).value)
    decreases |events|
  {
    if events != [] {
      IndexedAgrees(cases, events[..|events| - 1]);
    }
  }

  /** An entry collected for a resolved case names that case and carries its sequence number. */
  lemma CollectedNamesItsCase(cases: seq<ReviewCase>, c: ReviewCase, indexed: EventIndex)
    requires UniqueIds(cases) && IndexAgrees(cases, indexed) && c in cases && EntryFor(c, indexed).Ok?
    ensures c.resolution.Some?
    ensures EntryFor(c, indexed).value.caseId == c.id
    ensures EntryFor(c, indexed).value.sequence == c.resolution.value.sequence
  {
    if c.id in indexed {
      SameIdSameCase(cases, c, FindCase(cases, c.id).value);
    }
  }

  lemma {:induction false} AllCollected(cases: seq<ReviewCase>, indexed: EventIndex, c: ReviewCase)
    requires CollectEntries(cases, indexed).Ok? && c in cases && !c.status.Pending?
    ensures EntryFor(c, indexed).Ok?
    decreases |cases|
  {
    if c in cases[..|cases| - 1] {
      AllCollected(cases[..|cases| - 1], indexed, c);
    }
  }

  lemma {:induction false} CollectedAre(cases: seq<ReviewCase>, indexed: EventIndex, entry: AuditEntry)
    requires CollectEntries(cases, indexed).Ok?
    ensures entry in CollectEntries(cases, indexed).value
            <==> exists c :: c in cases && !c.status.Pending? && EntryFor(c, indexed) == Ok(entry)
    decreases |cases|
  {
    if cases != [] {
      CollectedAre(cases[..|cases| - 1], indexed, entry);
      assert forall c :: c in cases <==> c in cases[..|cases| - 1] || c == cases[|cases| - 1];
    }
  }

  /** The case resolved at position `n` of the history. */
  ghost predicate ResolvedAs(c: ReviewCase, n: int) {
    !c.status.Pending? && c.resolution.Some? && c.resolution.value.sequence == n
  }

  ghost predicate SomeCaseAt(cases: seq<ReviewCase>, n: int) {
    exists c :: c in cases && ResolvedAs(c, n)
  }

  /** Whenever reconstruction succeeds on valid events, every resolved case has a number in 1..n, every
      number in 1..n belongs to a resolved case, no two cases share one, and n + 1 comes next. */
  lemma SuccessNumbersCases(cases: seq<ReviewCase>, events: seq<ReviewEvent>, history: ReconstructedHistory)
    requires UniqueIds(cases) && forall e :: e in events ==> e.Valid()
    requires Reconstructed(cases, events) == Ok(history)
    ensures history.nextSequence == |history.entries| + 1
    ensures forall c :: c in cases && !c.status.Pending? ==>
              c.resolution.Some? && 1 <= c.resolution.value.sequence <= |history.entries|
    ensures forall n :: 1 <= n <= |history.entries| ==> SomeCaseAt(cases, n)
    ensures forall c, d, n :: c in cases && d in cases && ResolvedAs(c, n) && ResolvedAs(d, n) ==> c == d
  {
    var indexed := IndexEvents(cases, events).value;
    var entries := CollectEntries(cases, indexed).value;
    IndexedAgrees(cases, events);
    SortBySequenceSorts(entries);
    forall c | c in cases && !c.status.Pending?
      ensures c.resolution.Some? && 1 <= c.resolution.value.sequence <= |history.entries|
      ensures history.entries[c.resolution.value.sequence - 1].caseId == c.id
    {
      NumberOf(cases, indexed, history.entries, c);
    }
    forall n | 1 <= n <= |history.entries|
      ensures SomeCaseAt(cases, n)
    {
      CaseAt(cases, indexed, history.entries, n);
    }
    forall c, d, n | c in cases && d in cases && ResolvedAs(c, n) && ResolvedAs(d, n)
      ensures c == d
    {
      SameIdSameCase(cases, c, d);
    }
  }

  lemma NumberOf(cases: seq<ReviewCase>, indexed: EventIndex, sorted: seq<AuditEntry>, c: ReviewCase)
    requires UniqueIds(cases) && IndexAgrees(cases, indexed) && CollectEntries(cases, indexed).Ok?
    requires Contiguous(sorted) && multiset(sorted) == multiset(CollectEntries(cases, indexed).value)
    requires c in cases && !c.status.Pending?
    ensures c.resolution.Some? && 1 <= c.resolution.value.sequence <= |sorted|
    ensures sorted[c.resolution.value.sequence - 1].caseId == c.id
  {
    AllCollected(cases, indexed, c);
    CollectedAre(cases, indexed, EntryFor(c, indexed).value);
    CollectedNamesItsCase(cases, c, indexed);
    assert EntryFor(c, indexed).value in multiset(sorted);
  }

  lemma CaseAt(cases: seq<ReviewCase>, indexed: EventIndex, sorted: seq<AuditEntry>, n: int)
    requires UniqueIds(cases) && IndexAgrees(cases, indexed) && CollectEntries(cases, indexed).Ok?
    requires Contiguous(sorted) && multiset(sorted) == multiset(CollectEntries(cases, indexed).value)
    requires 1 <= n <= |sorted|
    ensures SomeCaseAt(cases, n)
  {
    assert sorted[n - 1] in multiset(sorted);
    CollectedAre(cases, indexed, sorted[n - 1]);
    var c :| c in cases && !c.status.Pending? && EntryFor(c, indexed) == Ok(sorted[n - 1]);
    CollectedNamesItsCase(cases, c, indexed);
    assert ResolvedAs(c, n);
  }
}
