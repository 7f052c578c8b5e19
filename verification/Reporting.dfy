/** The reduced resolution snapshot a queue persists, and the AUTO_MATCH graph rebuilt from it. */
module Reporting {
  import opened Results
  import opened Records
  import opened Resolution
  import opened Review
  import opened Authorization
  import opened Workflow

  /** `auto_match_pairs`: one list of record ids an entry. */
  type Snapshot = seq<seq<RecordId>>

  function ResolutionSnapshot(decisions: seq<MatchDecision>): Snapshot {
    var edges := AutoEdges(decisions);
    seq(|edges|, i requires 0 <= i < |edges| => [edges[i].a, edges[i].b])
  }

  /** Entries that are pairs at all name two different records. */
  predicate EndsDiffer(snapshot: Snapshot) {
    forall i :: 0 <= i < |snapshot| && |snapshot[i]| == 2 ==> snapshot[i][0] != snapshot[i][1]
  }

  function DecisionFor(entry: seq<RecordId>): MatchDecision
    requires |entry| == 2 && entry[0] != entry[1]
  {
    MatchDecision(Ordered(entry[0], entry[1]), 1.0, AutoMatch)
  }

  function Rebuilt(snapshot: Snapshot): Result<seq<MatchDecision>, ReviewError>
    requires EndsDiffer(snapshot)
  {
    if snapshot == [] then Ok([]) else
      var front, entry := Rebuilt(snapshot[..|snapshot| - 1]), snapshot[|snapshot| - 1];
      if front.Err? then front
      else if |entry| != 2 then Err(SnapshotMalformed)
      else Ok(front.value + [DecisionFor(entry)])
  }

  /** Rebuilds the AUTO_MATCH decisions, or refuses a snapshot holding an entry that is not a pair. */
  method RebuildResolution(snapshot: Snapshot) returns (r: Result<seq<MatchDecision>, ReviewError>)
    requires EndsDiffer(snapshot)
    ensures r == Rebuilt(snapshot)
    ensures r.Ok? <==> AllPairs(snapshot)
  {
    var decisions: seq<MatchDecision> := [];
    var n := 0;
    while n < |snapshot|
      invariant n <= |snapshot| && Rebuilt(snapshot[..n]) == Ok(decisions)
      invariant forall i :: 0 <= i < n ==> |snapshot[i]| == 2
    {
      assert snapshot[..n + 1][..n] == snapshot[..n];
      if |snapshot[n]| != 2 {
        MalformedStays(snapshot, n + 1);
        return Err(SnapshotMalformed);
      }
      decisions := decisions + [DecisionFor(snapshot[n])];
      n := n + 1;
    }
    assert snapshot[..n] == snapshot;
    r := Ok(decisions);
  }

  /** One AUTO_MATCH edge an entry, in order. */
  ghost predicate EdgesTell(edges: seq<Pair>, snapshot: Snapshot) {
    |edges| == |snapshot| &&
    forall i :: 0 <= i < |edges| ==> |snapshot[i]| == 2 && edges[i] == Ordered(snapshot[i][0], snapshot[i][1])
  }

  predicate AllPairs(snapshot: Snapshot) {
    forall i :: 0 <= i < |snapshot| ==> |snapshot[i]| == 2
  }

  lemma EntryOneMore(front: Snapshot, entry: seq<RecordId>)
    ensures AllPairs(front + [entry]) <==> AllPairs(front) && |entry| == 2
    ensures EndsDiffer(front + [entry]) <==> EndsDiffer(front) && (|entry| == 2 ==> entry[0] != entry[1])
  {
    var all := front + [entry];
    assert all[|front|] == entry && forall i :: 0 <= i < |front| ==> all[i] == front[i];
  }

  lemma EdgesTellOneMore(edges: seq<Pair>, snapshot: Snapshot, entry: seq<RecordId>)
    requires EdgesTell(edges, snapshot) && |entry| == 2 && entry[0] != entry[1]
    ensures EdgesTell(edges + [Ordered(entry[0], entry[1])], snapshot + [entry])
  {
  }

  /** A snapshot rebuilds exactly when every entry is a pair, and gives one AUTO_MATCH edge an entry, in order. */
  lemma {:induction false} RebuiltIsTheSnapshot(snapshot: Snapshot)
    requires EndsDiffer(snapshot)
    ensures Rebuilt(snapshot).Ok? <==> AllPairs(snapshot)
    ensures Rebuilt(snapshot).Err? ==> Rebuilt(snapshot).error == SnapshotMalformed
    ensures Rebuilt(snapshot).Ok? ==> EdgesTell(AutoEdges(Rebuilt(snapshot).value), snapshot)
    decreases |snapshot|
  {
    if snapshot != [] {
      var front, entry := snapshot[..|snapshot| - 1], snapshot[|snapshot| - 1];
      assert snapshot == front + [entry];
      EntryOneMore(front, entry);
      RebuiltIsTheSnapshot(front);
      if Rebuilt(front).Ok? && |entry| == 2 {
        AutoEdgesStep(Rebuilt(front).value, DecisionFor(entry));
        EdgesTellOneMore(AutoEdges(Rebuilt(front).value), front, entry);
      }
    }
  }

  lemma {:induction false} MalformedStays(snapshot: Snapshot, n: nat)
    requires EndsDiffer(snapshot) && n <= |snapshot|
    requires Rebuilt(snapshot[..n]) == Err(SnapshotMalformed)
    ensures Rebuilt(snapshot) == Err(SnapshotMalformed)
    decreases |snapshot|
  {
    if n == |snapshot| {
      assert snapshot[..n] == snapshot;
    } else {
      assert snapshot[..|snapshot| - 1][..n] == snapshot[..n];
      MalformedStays(snapshot[..|snapshot| - 1], n);
    }
  }

  lemma SnapshotOneMore(decisions: seq<MatchDecision>, next: MatchDecision)
    ensures ResolutionSnapshot(decisions + [next])
            == ResolutionSnapshot(decisions) + if next.decision.AutoMatch? then [[next.pair.a, next.pair.b]] else []
  {
    AutoEdgesStep(decisions, next);
  }

  lemma RebuiltOneMore(snapshot: Snapshot, pair: Pair)
    requires EndsDiffer(snapshot) && Rebuilt(snapshot).Ok?
    ensures EndsDiffer(snapshot + [[pair.a, pair.b]])
    ensures Rebuilt(snapshot + [[pair.a, pair.b]]) == Ok(Rebuilt(snapshot).value + [MatchDecision(pair, 1.0, AutoMatch)])
  {
    assert (snapshot + [[pair.a, pair.b]])[..|snapshot|] == snapshot;
  }

  /** The AUTO_MATCH edges survive the round trip through the snapshot, in order. */
  lemma {:induction false} SnapshotKeepsAutoEdges(decisions: seq<MatchDecision>)
    ensures EndsDiffer(ResolutionSnapshot(decisions)) && Rebuilt(ResolutionSnapshot(decisions)).Ok?
    ensures AutoEdges(Rebuilt(ResolutionSnapshot(decisions)).value) == AutoEdges(decisions)
    decreases |decisions|
  {
    if decisions != [] {
      var front, last := decisions[..|decisions| - 1], decisions[|decisions| - 1];
      SnapshotKeepsAutoEdges(front);
      assert decisions == front + [last];
      AutoEdgesStep(front, last);
      SnapshotOneMore(front, last);
      if last.decision.AutoMatch? {
        RebuiltOneMore(ResolutionSnapshot(front), last.pair);
        AutoEdgesStep(Rebuilt(ResolutionSnapshot(front)).value, MatchDecision(last.pair, 1.0, AutoMatch));
      } else {
        assert ResolutionSnapshot(front) + [] == ResolutionSnapshot(front) && AutoEdges(front) + [] == AutoEdges(front);
      }
    }
  }

  /** Persisting is verdict-preserving: the boundary decides alike on the full resolution and on the one
      rebuilt from its snapshot, for every outcome, pair and record map. */
  lemma SnapshotKeepsVerdicts(
    decisions: seq<MatchDecision>, ids: set<RecordId>, pair: Pair, severe: set<Pair>,
    cases: seq<ReviewCase>, existingMatches: set<Pair>, existingNoMatches: set<Pair>)
    ensures EndsDiffer(ResolutionSnapshot(decisions)) && Rebuilt(ResolutionSnapshot(decisions)).Ok?
    ensures var rebuilt := AutoEdges(Rebuilt(ResolutionSnapshot(decisions)).value);
            BoundaryVerdict(pair, ids, rebuilt, severe, cases, existingMatches, existingNoMatches)
            == BoundaryVerdict(pair, ids, AutoEdges(decisions), severe, cases, existingMatches, existingNoMatches)
  {
    SnapshotKeepsAutoEdges(decisions);
  }
}
