/** Whole runs of the review workflow: what every call keeps, and how contradictions arise and stay. */
module WorkflowRuns {
  import opened Results
  import opened Records
  import opened Partitions
  import opened Resolution
  import opened Review
  import opened Constraints
  import opened Authorization
  import opened Workflow

  datatype Call = Call(id: CaseId, decision: HumanDecision, reviewer: Option<string>, context: AuthContext)

  /** The same cases, in the same order; only status and resolution may differ. */
  ghost predicate SameShape(s: seq<ReviewCase>, t: seq<ReviewCase>) {
    |s| == |t| && forall i :: 0 <= i < |s| ==>
      t[i] == s[i].(status := t[i].status, resolution := t[i].resolution)
  }

  lemma ShapeKeepsIds(s: seq<ReviewCase>, t: seq<ReviewCase>)
    requires SameShape(s, t)
    ensures UniqueIds(s) ==> UniqueIds(t)
  {
  }

  /** One call: the state it leaves behind, accepted or refused. */
  ghost function Next(state: WorkflowState, call: Call): (next: WorkflowState) {
    var r := Resolved(state, call.id, call.decision, call.reviewer, call.context);
    if r.Ok? then r.value else state
  }

  lemma NextKeepsShape(state: WorkflowState, call: Call)
    requires UniqueIds(state.cases)
    ensures SameShape(state.cases, Next(state, call).cases)
  {
    var found := FindCase(state.cases, call.id);
    if found.Some? {
      forall i | 0 <= i < |state.cases| && state.cases[i].id == call.id
        ensures state.cases[i] == found.value
      {
        SameIdSameCase(state.cases, state.cases[i], found.value);
      }
    }
  }

  ghost function Run(state: WorkflowState, calls: seq<Call>): (last: WorkflowState)
    requires UniqueIds(state.cases)
    ensures SameShape(state.cases, last.cases) && UniqueIds(last.cases)
    decreases |calls|
  {
    if calls == [] then state else
      var before, call := Run(state, calls[..|calls| - 1]), calls[|calls| - 1];
      NextKeepsShape(before, call);
      ShapeKeepsIds(before.cases, Next(before, call).cases);
      Next(before, call)
  }

  // ---- what one accepted call records ---------------------------------------------------------------------------

  /** The recorded pairs after an accepted decision: one pair more on the side decided, nothing else. */
  lemma RecordedPairs(state: WorkflowState, c: ReviewCase, decision: HumanDecision, reviewer: Option<string>)
    requires UniqueIds(state.cases) && c in state.cases && c.status.Pending?
    ensures var next := Recorded(state, c, decision, reviewer);
            && MatchPairs(next.cases) == MatchPairs(state.cases) + (if decision.DecideMatch? then {c.pair} else {})
            && NoMatchPairs(next.cases) == NoMatchPairs(state.cases) + (if decision.DecideNoMatch? then {c.pair} else {})
  {
    var updated := Decided(c, decision, reviewer, state.nextSequence);
    var next := ReplaceCase(state.cases, updated);
    var at :| 0 <= at < |state.cases| && state.cases[at] == c;
    assert next[at] == updated && updated in next;
    forall d | d in state.cases && d != c
      ensures d in next
    {
      var i :| 0 <= i < |state.cases| && state.cases[i] == d;
      SameIdSameCase(state.cases, c, d);
      assert next[i] == d;
    }
    forall d | d in next && d != updated
      ensures d in state.cases && d != c
    {
      var i :| 0 <= i < |next| && next[i] == d;
      assert d == state.cases[i];
    }
    assert forall d :: d in next ==> d == updated || (d in state.cases && d != c);
  }

  /** Right after any accepted MATCH, the whole recorded MATCH graph joins no recorded NO_MATCH pair. */
  lemma AcceptedMatchLeavesConsistent(state: WorkflowState, call: Call)
    requires UniqueIds(state.cases)
    requires call.decision.DecideMatch?
    requires Resolved(state, call.id, call.decision, call.reviewer, call.context).Ok?
    ensures !Contradictory(MatchPairs(Next(state, call).cases), NoMatchPairs(Next(state, call).cases))
  {
    var c := FindCase(state.cases, call.id).value;
    RecordedPairs(state, c, call.decision, call.reviewer);
    assert MatchRefusal(state.cases, c, call.context).None?;
    assert EffectiveNoMatches(state.cases, {}) == NoMatchPairs(state.cases);
    assert NoMatchPairs(state.cases) + {} == NoMatchPairs(state.cases);
  }

  /** In a contradictory state every MATCH is refused, on whatever pair and in whatever context. */
  lemma ContradictionRefusesMatch(state: WorkflowState, call: Call)
    requires UniqueIds(state.cases)
    requires call.decision.DecideMatch? && Contradictory(MatchPairs(state.cases), NoMatchPairs(state.cases))
    ensures Resolved(state, call.id, call.decision, call.reviewer, call.context).Err?
  {
    if Resolved(state, call.id, call.decision, call.reviewer, call.context).Ok? {
      var c := FindCase(state.cases, call.id).value;
      RecordedPairs(state, c, call.decision, call.reviewer);
      ContradictionGrows(MatchPairs(state.cases), NoMatchPairs(state.cases),
                         MatchPairs(Next(state, call).cases), NoMatchPairs(Next(state, call).cases));
      AcceptedMatchLeavesConsistent(state, call);
      assert false;
    }
  }

  lemma NextRecordsMore(state: WorkflowState, call: Call)
    requires UniqueIds(state.cases)
    ensures MatchPairs(state.cases) <= MatchPairs(Next(state, call).cases)
    ensures NoMatchPairs(state.cases) <= NoMatchPairs(Next(state, call).cases)
  {
    if Resolved(state, call.id, call.decision, call.reviewer, call.context).Ok? {
      RecordedPairs(state, FindCase(state.cases, call.id).value, call.decision, call.reviewer);
    }
  }

  // ---- over whole runs --------------------------------------------------------------------------------------------

  ghost predicate IsContradictory(state: WorkflowState) {
    Contradictory(MatchPairs(state.cases), NoMatchPairs(state.cases))
  }

  lemma {:induction false} RunRecordsMore(state: WorkflowState, calls: seq<Call>)
    requires UniqueIds(state.cases)
    ensures MatchPairs(state.cases) <= MatchPairs(Run(state, calls).cases)
    ensures NoMatchPairs(state.cases) <= NoMatchPairs(Run(state, calls).cases)
    decreases |calls|
  {
    if calls != [] {
      RunRecordsMore(state, calls[..|calls| - 1]);
      NextRecordsMore(Run(state, calls[..|calls| - 1]), calls[|calls| - 1]);
    }
  }

  /** Once contradictory, always contradictory: in no continuation is a MATCH on any pair accepted again. */
  lemma ContradictionIsForever(state: WorkflowState, calls: seq<Call>, call: Call)
    requires UniqueIds(state.cases) && call.decision.DecideMatch? && IsContradictory(state)
    ensures IsContradictory(Run(state, calls))
    ensures Resolved(Run(state, calls), call.id, call.decision, call.reviewer, call.context).Err?
  {
    var last := Run(state, calls);
    RunRecordsMore(state, calls);
    ContradictionGrows(MatchPairs(state.cases), NoMatchPairs(state.cases), MatchPairs(last.cases), NoMatchPairs(last.cases));
    ContradictionRefusesMatch(last, call);
  }

  /** The call is an accepted NO_MATCH on a pair that recorded MATCH pairs already join. */
  ghost predicate SplitsAComponent(state: WorkflowState, call: Call) {
    && call.decision.DecideNoMatch?
    && FindCase(state.cases, call.id).Some?
    && var c := FindCase(state.cases, call.id).value;
       c.status.Pending? && Connected(MatchPairs(state.cases), c.pair.a, c.pair.b)
  }

  /** One call turns a consistent state contradictory exactly when it splits a component of recorded MATCHes. */
  lemma WhenACallContradicts(state: WorkflowState, call: Call)
    requires UniqueIds(state.cases) && !IsContradictory(state)
    ensures IsContradictory(Next(state, call)) <==> SplitsAComponent(state, call)
  {
    if Resolved(state, call.id, call.decision, call.reviewer, call.context).Ok? {
      var c := FindCase(state.cases, call.id).value;
      RecordedPairs(state, c, call.decision, call.reviewer);
      if call.decision.DecideMatch? {
        AcceptedMatchLeavesConsistent(state, call);
      } else if call.decision.DecideNoMatch? {
        WhenNoMatchContradicts(MatchPairs(state.cases), NoMatchPairs(state.cases), c.pair);
        assert MatchPairs(state.cases) + {} == MatchPairs(state.cases);
      } else {
        assert MatchPairs(state.cases) + {} == MatchPairs(state.cases);
        assert NoMatchPairs(state.cases) + {} == NoMatchPairs(state.cases);
      }
    }
  }

  /** Somewhere along the run, a NO_MATCH was accepted on two records that recorded MATCHes already joined. */
  ghost predicate EverSplits(state: WorkflowState, calls: seq<Call>)
    requires UniqueIds(state.cases)
    decreases |calls|
  {
    calls != [] &&
    var before, call := Run(state, calls[..|calls| - 1]), calls[|calls| - 1];
    (EverSplits(state, calls[..|calls| - 1]) ||
     SplitsAComponent(before, call))
  }

  /** A run from a consistent state ends contradictory exactly when some accepted NO_MATCH split a component. */
  lemma {:induction false} RunContradictsExactlyWhenSplit(state: WorkflowState, calls: seq<Call>)
    requires UniqueIds(state.cases) && !IsContradictory(state)
    ensures IsContradictory(Run(state, calls)) <==> EverSplits(state, calls)
    decreases |calls|
  {
    if calls != [] {
      var before, call := Run(state, calls[..|calls| - 1]), calls[|calls| - 1];
      RunContradictsExactlyWhenSplit(state, calls[..|calls| - 1]);
      if IsContradictory(before) {
        NextRecordsMore(before, call);
        ContradictionGrows(MatchPairs(before.cases), NoMatchPairs(before.cases),
                           MatchPairs(Next(before, call).cases), NoMatchPairs(Next(before, call).cases));
      } else {
        WhenACallContradicts(before, call);
      }
    }
  }

  /** A resolved case never changes again and the audit trail is append-only. */
  lemma {:induction false} RunKeepsHistory(state: WorkflowState, calls: seq<Call>, i: nat)
    requires UniqueIds(state.cases) && i < |state.cases|
    ensures state.auditTrail <= Run(state, calls).auditTrail
    ensures !state.cases[i].status.Pending? ==> Run(state, calls).cases[i] == state.cases[i]
    decreases |calls|
  {
    if calls != [] {
      var before, call := Run(state, calls[..|calls| - 1]), calls[|calls| - 1];
      RunKeepsHistory(state, calls[..|calls| - 1], i);
      if FindCase(before.cases, call.id).Some? {
        SameIdSameCase(before.cases, before.cases[i], FindCase(before.cases, call.id).value);
      }
    }
  }

  // ---- what the trail tells ---------------------------------------------------------------------------------------

  /** The entry says who decided what on which case, as entry number `n`. */
  ghost predicate Tells(entry: AuditEntry, call: Call, n: int, cases: seq<ReviewCase>) {
    entry.caseId == call.id && entry.decision == call.decision && entry.reviewer == call.reviewer &&
    entry.sequence == n && ActsOn(call.decision, entry.downstream) && exists c :: c in cases && IsAbout(entry, c)
  }

  /** Only a MATCH makes records eligible for a merge; a NO_MATCH is recorded as such, and a DEFER keeps them
      excluded. */
  predicate ActsOn(decision: HumanDecision, action: DownstreamAction) {
    (decision.DecideMatch? <==> action.EligibleForMerge?) && (decision.DecideNoMatch? <==> action.NoMatchRecorded?) &&
    (decision.Defer? <==> action.RemainExcluded?)
  }

  predicate IsAbout(entry: AuditEntry, c: ReviewCase) {
    entry.caseId == c.id && entry.a == c.pair.a && entry.b == c.pair.b &&
    entry.machineDecision == c.machineDecision && entry.machineReason == c.machineReason
  }

  ghost predicate Accepts(state: WorkflowState, call: Call) {
    Resolved(state, call.id, call.decision, call.reviewer, call.context).Ok?
  }

  /** An accepted call appends the one entry that tells it, decides its own case, which was PENDING, the way it
      says, and leaves every other case as it was; a refused call changes nothing. */
  lemma AcceptedCallRecordsItself(state: WorkflowState, call: Call)
    requires UniqueIds(state.cases)
    ensures var next := Next(state, call);
            if !Accepts(state, call) then next == state
            else
              && (exists entry :: next.auditTrail == state.auditTrail + [entry]
                                  && Tells(entry, call, state.nextSequence, state.cases))
              && next.nextSequence == state.nextSequence + 1 && |next.cases| == |state.cases|
    ensures Accepts(state, call) ==> forall i :: 0 <= i < |state.cases| ==>
              if state.cases[i].id != call.id then Next(state, call).cases[i] == state.cases[i]
              else DecidedBy(state.cases[i], Next(state, call).cases[i], call, state.nextSequence)
  {
    if Accepts(state, call) {
      var c := FindCase(state.cases, call.id).value;
      var updated := Decided(c, call.decision, call.reviewer, state.nextSequence);
      assert IsAbout(EntryOf(updated), c);
      assert Tells(EntryOf(updated), call, state.nextSequence, state.cases);
      forall i | 0 <= i < |state.cases| && state.cases[i].id == call.id
        ensures DecidedBy(state.cases[i], Next(state, call).cases[i], call, state.nextSequence)
      {
        SameIdSameCase(state.cases, state.cases[i], c);
      }
    }
  }

  /** The case went from PENDING to the status its decision stands for, and carries the resolution. */
  predicate DecidedBy(before: ReviewCase, after: ReviewCase, call: Call, n: int) {
    before.status.Pending? && after.resolution.Some? &&
    (after.status.Matched? <==> call.decision.DecideMatch?) &&
    (after.status.NotMatched? <==> call.decision.DecideNoMatch?) &&
    (after.status.Deferred? <==> call.decision.Defer?) &&
    after.resolution.value.decision == call.decision && after.resolution.value.reviewer == call.reviewer &&
    after.resolution.value.sequence == n && ActsOn(call.decision, after.resolution.value.downstream) &&
    after == before.(status := after.status, resolution := after.resolution) &&
    after.resolution.value.caseId == before.id && after.resolution.value.machineDecision == before.machineDecision &&
    after.resolution.value.machineReason == before.machineReason
  }

  /** The accepted calls of a run, in order. */
  ghost function AcceptedAmong(state: WorkflowState, calls: seq<Call>): seq<Call>
    requires UniqueIds(state.cases)
    decreases |calls|
  {
    if calls == [] then [] else
      var before, call := Run(state, calls[..|calls| - 1]), calls[|calls| - 1];
      AcceptedAmong(state, calls[..|calls| - 1]) +
      if Accepts(before, call) then [call] else []
  }

  lemma TellsAcrossShapes(entry: AuditEntry, call: Call, n: int, s: seq<ReviewCase>, t: seq<ReviewCase>)
    requires SameShape(t, s) && Tells(entry, call, n, s)
    ensures Tells(entry, call, n, t)
  {
    var c :| c in s && IsAbout(entry, c);
    var i :| 0 <= i < |s| && s[i] == c;
    assert s[i] == t[i].(status := s[i].status, resolution := s[i].resolution);
    assert t[i] in t && IsAbout(entry, t[i]);
  }

  /** One entry each, in order, under consecutive numbers from `first`. */
  ghost predicate TellsAll(entries: seq<AuditEntry>, calls: seq<Call>, first: int, cases: seq<ReviewCase>) {
    |entries| == |calls| && forall k :: 0 <= k < |calls| ==> Tells(entries[k], calls[k], first + k, cases)
  }

  lemma TellsOneMore(
    entries: seq<AuditEntry>, calls: seq<Call>, first: int, cases: seq<ReviewCase>, entry: AuditEntry, call: Call)
    requires TellsAll(entries, calls, first, cases) && Tells(entry, call, first + |calls|, cases)
    ensures TellsAll(entries + [entry], calls + [call], first, cases)
  {
  }

  /** What a run added to the trail tells these calls. */
  ghost predicate Gained(state: WorkflowState, last: WorkflowState, accepted: seq<Call>) {
    state.auditTrail <= last.auditTrail && last.nextSequence == state.nextSequence + |accepted| &&
    TellsAll(last.auditTrail[|state.auditTrail|..], accepted, state.nextSequence, state.cases)
  }

  lemma GainedOneMore(
    state: WorkflowState, before: WorkflowState, last: WorkflowState, accepted: seq<Call>, entry: AuditEntry, call: Call)
    requires Gained(state, before, accepted) && SameShape(state.cases, before.cases)
    requires last.auditTrail == before.auditTrail + [entry] && last.nextSequence == before.nextSequence + 1
    requires Tells(entry, call, before.nextSequence, before.cases)
    ensures Gained(state, last, accepted + [call])
  {
    var from := |state.auditTrail|;
    TellsAcrossShapes(entry, call, before.nextSequence, before.cases, state.cases);
    TellsOneMore(before.auditTrail[from..], accepted, state.nextSequence, state.cases, entry, call);
    assert last.auditTrail[from..] == before.auditTrail[from..] + [entry];
  }

  /** Over every run, what the trail gained is exactly the accepted calls. */
  lemma {:induction false} TrailTellsAcceptedCalls(state: WorkflowState, calls: seq<Call>)
    requires UniqueIds(state.cases)
    ensures Gained(state, Run(state, calls), AcceptedAmong(state, calls))
    decreases |calls|
  {
    if calls == [] {
      NothingGained(state);
    } else {
      var front, call := calls[..|calls| - 1], calls[|calls| - 1];
      var before := Run(state, front);
      TrailTellsAcceptedCalls(state, front);
      AcceptedCallRecordsItself(before, call);
      if Accepts(before, call) {
        var entry :| Run(state, calls).auditTrail == before.auditTrail + [entry]
                     && Tells(entry, call, before.nextSequence, before.cases);
        GainedOneMore(state, before, Run(state, calls), AcceptedAmong(state, front), entry, call);
      } else {
        assert AcceptedAmong(state, calls) == AcceptedAmong(state, front);
      }
    }
  }

  lemma NothingGained(state: WorkflowState)
    ensures Gained(state, state, [])
  {
  }

  lemma AppendedInFull(front: seq<Call>, calls: seq<Call>, last: seq<Call>)
    requires calls != [] && |front| <= |calls| - 1 && (last == [] || last == [calls[|calls| - 1]])
    requires |front| == |calls| - 1 ==> front == calls[..|calls| - 1]
    ensures |front + last| <= |calls|
    ensures |front + last| == |calls| ==> front + last == calls
  {
    assert calls == calls[..|calls| - 1] + [calls[|calls| - 1]];
  }

  /** A run with as many accepted calls as calls refused none. */
  lemma {:induction false} NoneRefused(state: WorkflowState, calls: seq<Call>)
    requires UniqueIds(state.cases)
    ensures |AcceptedAmong(state, calls)| <= |calls|
    ensures |AcceptedAmong(state, calls)| == |calls| ==> AcceptedAmong(state, calls) == calls
    decreases |calls|
  {
    if calls != [] {
      var front, call := calls[..|calls| - 1], calls[|calls| - 1];
      var before := Run(state, front);
      NoneRefused(state, front);
      var last := if Accepts(before, call) then [call] else [];
      assert AcceptedAmong(state, calls) == AcceptedAmong(state, front) + last;
      AppendedInFull(AcceptedAmong(state, front), calls, last);
    }
  }

  /** A run whose trail gained an entry for every call tells them all. */
  lemma FullTrailTellsCalls(state: WorkflowState, calls: seq<Call>)
    requires UniqueIds(state.cases)
    requires state.auditTrail == [] && |Run(state, calls).auditTrail| == |calls|
    ensures TellsAll(Run(state, calls).auditTrail, calls, state.nextSequence, state.cases)
  {
    TrailTellsAcceptedCalls(state, calls);
    NoneRefused(state, calls);
    var trail := Run(state, calls).auditTrail;
    assert trail[0..] == trail;
  }

  // ---- a run that contradicts itself --------------------------------------------------------------------------------

  const EXAMPLE_CONTEXT := AuthContext(Some([]), Some({0, 1, 2}), Some(Config(true, {})))

  function PendingCase(id: CaseId, pair: Pair): ReviewCase {
    ReviewCase(id, pair, MatchDecisionType.Review, "", Pending, None)
  }

  const FIRST: ReviewCase := PendingCase("p", RecordPair(0, 1))
  const SECOND: ReviewCase := PendingCase("q", RecordPair(1, 2))
  const THIRD: ReviewCase := PendingCase("r", RecordPair(0, 2))
  const START := WorkflowState([FIRST, SECOND, THIRD], [], 1)
  const MATCH_FIRST := Call("p", DecideMatch, None, EXAMPLE_CONTEXT)
  const MATCH_SECOND := Call("q", DecideMatch, None, EXAMPLE_CONTEXT)
  const NO_MATCH_THIRD := Call("r", DecideNoMatch, None, NO_CONTEXT)

  /** A MATCH is accepted while nothing forbids it: no NO_MATCH recorded, no severe pair. */
  lemma UnopposedMatchIsAccepted(state: WorkflowState, id: CaseId)
    requires UniqueIds(state.cases) && FindCase(state.cases, id).Some?
    requires var c := FindCase(state.cases, id).value; c.status.Pending? && Inside(c.pair, {0, 1, 2})
    requires NoMatchPairs(state.cases) == {} && forall m :: m in MatchPairs(state.cases) ==> Inside(m, {0, 1, 2})
    ensures var next := Next(state, Call(id, DecideMatch, None, EXAMPLE_CONTEXT));
            && next == Recorded(state, FindCase(state.cases, id).value, DecideMatch, None)
            && NoMatchPairs(next.cases) == {}
            && MatchPairs(next.cases) == MatchPairs(state.cases) + {FindCase(state.cases, id).value.pair}
  {
    var c := FindCase(state.cases, id).value;
    assert EffectiveNoMatches(state.cases, {}) == {};
    assert MatchRefusal(state.cases, c, EXAMPLE_CONTEXT).None?;
    RecordedPairs(state, c, DecideMatch, None);
  }

  lemma StartIsFresh()
    ensures UniqueIds(START.cases)
    ensures forall c :: c in START.cases ==> c.status.Pending? && c.resolution.None?
  {
  }

  lemma AfterFirstMatch() returns (one: WorkflowState)
    ensures one == Next(START, MATCH_FIRST) && UniqueIds(one.cases)
    ensures |one.cases| == 3 && one.cases[1] == SECOND && one.cases[2] == THIRD
    ensures NoMatchPairs(one.cases) == {} && MatchPairs(one.cases) == {FIRST.pair}
  {
    FindsAt(START.cases, 0);
    assert NoMatchPairs(START.cases) == {} && MatchPairs(START.cases) == {};
    UnopposedMatchIsAccepted(START, "p");
    NextKeepsShape(START, MATCH_FIRST);
    one := Next(START, MATCH_FIRST);
  }

  lemma AfterSecondMatch(one: WorkflowState) returns (two: WorkflowState)
    requires |one.cases| == 3 && one.cases[1] == SECOND && one.cases[2] == THIRD && UniqueIds(one.cases)
    requires NoMatchPairs(one.cases) == {} && MatchPairs(one.cases) == {FIRST.pair}
    ensures two == Next(one, MATCH_SECOND) && UniqueIds(two.cases) && |two.cases| == 3 && two.cases[2] == THIRD
    ensures NoMatchPairs(two.cases) == {} && MatchPairs(two.cases) == {FIRST.pair, SECOND.pair}
  {
    FindsAt(one.cases, 1);
    UnopposedMatchIsAccepted(one, "q");
    NextKeepsShape(one, MATCH_SECOND);
    two := Next(one, MATCH_SECOND);
  }

  lemma ThenNoMatchContradicts(two: WorkflowState)
    requires UniqueIds(two.cases) && |two.cases| == 3 && two.cases[2] == THIRD
    requires NoMatchPairs(two.cases) == {} && MatchPairs(two.cases) == {FIRST.pair, SECOND.pair}
    ensures !IsContradictory(two) && IsContradictory(Next(two, NO_MATCH_THIRD))
  {
    FindsAt(two.cases, 2);
    EdgeConnects(MatchPairs(two.cases), FIRST.pair);
    EdgeConnects(MatchPairs(two.cases), SECOND.pair);
    ConnectedIsTransitive(MatchPairs(two.cases), 0, 1, 2);
    WhenACallContradicts(two, NO_MATCH_THIRD);
  }

  lemma LastCallContradicts(
    start: WorkflowState, one: WorkflowState, two: WorkflowState, a: Call, b: Call, c: Call)
    returns (calls: seq<Call>)
    requires UniqueIds(start.cases) && one == Next(start, a) && two == Next(one, b)
    requires !IsContradictory(two) && IsContradictory(Next(two, c))
    ensures calls == [a, b, c]
    ensures !IsContradictory(Run(start, calls[..2])) && IsContradictory(Run(start, calls))
  {
    calls := [a, b, c];
    assert calls[..2] == [a, b] && [a, b][..1] == [a] && [a][..0] == [];
    assert Run(start, [a]) == Next(start, a);
  }

  /** From three pending cases: MATCH (0, 1), MATCH (1, 2) and NO_MATCH (0, 2) are all accepted, the last without a
      check, and leave a contradiction. */
  lemma NoMatchCanContradict() returns (start: WorkflowState, calls: seq<Call>)
    ensures start == START && UniqueIds(start.cases)
    ensures forall c :: c in start.cases ==> c.status.Pending? && c.resolution.None?
    ensures calls == [MATCH_FIRST, MATCH_SECOND, NO_MATCH_THIRD]
    ensures !IsContradictory(Run(start, calls[..2])) && IsContradictory(Run(start, calls))
  {
    start := START;
    StartIsFresh();
    var one := AfterFirstMatch();
    var two := AfterSecondMatch(one);
    ThenNoMatchContradicts(two);
    calls := LastCallContradicts(start, one, two, MATCH_FIRST, MATCH_SECOND, NO_MATCH_THIRD);
  }

  lemma FindsAt(cases: seq<ReviewCase>, i: nat)
    requires UniqueIds(cases) && i < |cases|
    ensures FindCase(cases, cases[i].id) == Some(cases[i])
  {
    SameIdSameCase(cases, cases[i], FindCase(cases, cases[i].id).value);
  }
}
