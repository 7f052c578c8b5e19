/** Which records still wait for a human (human_review/integration.py:15-30), and how that set moves over a run. */
module Exclusion {
  import opened Results
  import opened Records
  import opened Review
  import opened Workflow
  import opened WorkflowRuns

  /** The status of the last case on this pair; a pair without a case is PENDING. */
  function StatusOf(cases: seq<ReviewCase>, pair: Pair): ReviewStatus {
    if cases == [] then Pending
    else if cases[|cases| - 1].pair == pair then cases[|cases| - 1].status
    else StatusOf(cases[..|cases| - 1], pair)
  }

  predicate Undecided(status: ReviewStatus) {
    status.Pending? || status.Deferred?
  }

  predicate Touches(pair: Pair, id: RecordId) {
    pair.a == id || pair.b == id
  }

  /** Some queued pair of this record is still undecided. */
  ghost predicate Excludes(queue: seq<Pair>, cases: seq<ReviewCase>, id: RecordId) {
    exists pair :: pair in queue && Touches(pair, id) && Undecided(StatusOf(cases, pair))
  }

  /** Two loops: the status of each pair, later cases overwriting earlier ones, then the undecided queue items. */
  method ReviewExcludedRecordIds(queue: seq<Pair>, outcome: Option<seq<ReviewCase>>)
    returns (excluded: set<RecordId>)
    ensures forall id :: id in excluded <==> Excludes(queue, if outcome.Some? then outcome.value else [], id)
  {
    ghost var all := if outcome.Some? then outcome.value else [];
    var resolvedPairs: map<Pair, ReviewStatus> := map[];
    if outcome.Some? {
      var cases := outcome.value;
      for n := 0 to |cases|
        invariant forall p: Pair ::
          StatusOf(cases[..n], p) == if p in resolvedPairs then resolvedPairs[p] else Pending
      {
        assert cases[..n + 1][..n] == cases[..n];
        resolvedPairs := resolvedPairs[cases[n].pair := cases[n].status];
      }
      assert cases[..|cases|] == cases;
    }
    excluded := {};
    for n := 0 to |queue|
      invariant forall id :: id in excluded <==> Excludes(queue[..n], all, id)
    {
      ghost var before := excluded;
      var status := if queue[n] in resolvedPairs then resolvedPairs[queue[n]] else Pending;
      assert status == StatusOf(all, queue[n]);
      if status.Pending? || status.Deferred? {
        excluded := excluded + {queue[n].a, queue[n].b};
      }
      ExcludesOneMore(queue, n, all);
    }
    assert queue[..|queue|] == queue;
  }

  lemma ExcludesOneMore(queue: seq<Pair>, n: nat, cases: seq<ReviewCase>)
    requires n < |queue|
    ensures forall id ::
      Excludes(queue[..n + 1], cases, id) <==>
      (Excludes(queue[..n], cases, id) || (Touches(queue[n], id) && Undecided(StatusOf(cases, queue[n]))))
  {
    assert queue[..n + 1] == queue[..n] + [queue[n]];
    forall id
      ensures Excludes(queue[..n + 1], cases, id)
              <==> Excludes(queue[..n], cases, id) || (Touches(queue[n], id) && Undecided(StatusOf(cases, queue[n])))
    {
      if Excludes(queue[..n], cases, id) {
        var pair :| pair in queue[..n] && Touches(pair, id) && Undecided(StatusOf(cases, pair));
        assert pair in queue[..n + 1];
      }
      if Touches(queue[n], id) && Undecided(StatusOf(cases, queue[n])) {
        assert queue[n] in queue[..n + 1];
      }
    }
  }

  /** Case `i` is about this pair, and no later one is. */
  predicate LastOn(cases: seq<ReviewCase>, pair: Pair, i: int) {
    0 <= i < |cases| && cases[i].pair == pair && forall j :: i < j < |cases| ==> cases[j].pair != pair
  }

  predicate HasCase(cases: seq<ReviewCase>, pair: Pair) {
    exists i :: 0 <= i < |cases| && cases[i].pair == pair
  }

  lemma LastOnOneMore(cases: seq<ReviewCase>, pair: Pair, i: int)
    requires cases != [] && cases[|cases| - 1].pair != pair
    ensures LastOn(cases, pair, i) <==> LastOn(cases[..|cases| - 1], pair, i)
  {
    var front := cases[..|cases| - 1];
    assert forall j :: 0 <= j < |front| ==> front[j] == cases[j];
  }

  /** The status of a pair is that of its last case, and PENDING when it has none. */
  lemma {:induction false} StatusIsTheLastOnes(cases: seq<ReviewCase>, pair: Pair) returns (last: Option<int>)
    ensures last.None? <==> !HasCase(cases, pair)
    ensures last.None? ==> StatusOf(cases, pair) == Pending
    ensures last.Some? ==> LastOn(cases, pair, last.value) && StatusOf(cases, pair) == cases[last.value].status
    decreases |cases|
  {
    if cases == [] {
      last := None;
    } else {
      var n := |cases| - 1;
      if cases[n].pair == pair {
        last := Some(n);
      } else {
        last := StatusIsTheLastOnes(cases[..n], pair);
        if last.Some? {
          LastOnOneMore(cases, pair, last.value);
        } else {
          assert forall i :: 0 <= i < n ==> cases[..n][i].pair != pair;
        }
      }
    }
  }

  /** The pair has no case, or its last one is PENDING or DEFERRED. */
  ghost predicate StillOpen(cases: seq<ReviewCase>, pair: Pair) {
    !HasCase(cases, pair) || exists i :: LastOn(cases, pair, i) && (cases[i].status.Pending? || cases[i].status.Deferred?)
  }

  lemma UndecidedIsStillOpen(cases: seq<ReviewCase>, pair: Pair)
    ensures Undecided(StatusOf(cases, pair)) <==> StillOpen(cases, pair)
  {
    var last := StatusIsTheLastOnes(cases, pair);
    if last.Some? {
      forall i | LastOn(cases, pair, i)
        ensures i == last.value
      {
      }
    }
  }

  /** A record is excluded exactly when some queued pair of it has no case, or its last case is PENDING or DEFERRED; with
      no outcome every queued record is. */
  lemma ExcludedExactlyWhen(queue: seq<Pair>, cases: seq<ReviewCase>, id: RecordId)
    ensures Excludes(queue, cases, id) <==> exists pair :: pair in queue && Touches(pair, id) && StillOpen(cases, pair)
    ensures cases == [] ==> (Excludes(queue, cases, id) <==> exists pair :: pair in queue && Touches(pair, id))
  {
    forall pair
      ensures Undecided(StatusOf(cases, pair)) <==> StillOpen(cases, pair)
    {
      UndecidedIsStillOpen(cases, pair);
    }
  }

  /** A decision once made is kept: what the later cases say of a pair differs only where it was PENDING. */
  lemma {:induction false} StatusIsKept(before: seq<ReviewCase>, after: seq<ReviewCase>, pair: Pair)
    requires SameShape(before, after)
    requires forall i :: 0 <= i < |before| && !before[i].status.Pending? ==> after[i] == before[i]
    ensures !StatusOf(before, pair).Pending? ==> StatusOf(after, pair) == StatusOf(before, pair)
    decreases |before|
  {
    if before != [] {
      var n := |before| - 1;
      assert after[n] == before[n].(status := after[n].status, resolution := after[n].resolution);
      StatusIsKept(before[..n], after[..n], pair);
    }
  }

  lemma RunKeepsStatuses(state: WorkflowState, calls: seq<Call>, pair: Pair)
    requires UniqueIds(state.cases)
    ensures !StatusOf(state.cases, pair).Pending? ==>
      StatusOf(Run(state, calls).cases, pair) == StatusOf(state.cases, pair)
  {
    forall i | 0 <= i < |state.cases| && !state.cases[i].status.Pending?
      ensures Run(state, calls).cases[i] == state.cases[i]
    {
      RunKeepsHistory(state, calls, i);
    }
    StatusIsKept(state.cases, Run(state, calls).cases, pair);
  }

  /** Resolving cases only ever releases records: none becomes excluded that was not. */
  lemma ExclusionOnlyShrinks(state: WorkflowState, calls: seq<Call>, queue: seq<Pair>, id: RecordId)
    requires UniqueIds(state.cases)
    ensures Excludes(queue, Run(state, calls).cases, id) ==> Excludes(queue, state.cases, id)
  {
    forall pair
      ensures Undecided(StatusOf(Run(state, calls).cases, pair)) ==> Undecided(StatusOf(state.cases, pair))
    {
      RunKeepsStatuses(state, calls, pair);
    }
  }

  /** A deferral is final: both its records stay excluded in every continuation. */
  lemma DeferralExcludesForever(
    state: WorkflowState, calls: seq<Call>, queue: seq<Pair>, pair: Pair, id: RecordId)
    requires UniqueIds(state.cases)
    requires pair in queue && Touches(pair, id) && StatusOf(state.cases, pair).Deferred?
    ensures Excludes(queue, Run(state, calls).cases, id)
  {
    RunKeepsStatuses(state, calls, pair);
  }
}
