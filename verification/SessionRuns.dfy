/** Sessions over whole runs: who is usable when, and what no order of writes can break. */
module SessionRuns {
  import opened Results
  import opened Calendar
  import opened Clock
  import opened Sessions
  import opened SessionServices

  /** A request that reaches one stored session. Resolving only reads, so it is not listed. */
  datatype Call = Touch(now: Instant) | Revocation(now: Instant)

  /** The row after one request, as the service's methods leave it. */
  function Step(row: Session, policy: SessionPolicy, call: Call): Session
    requires policy.Valid()
  {
    match call
    case Touch(now) => Touched(row, policy, now).1
    case Revocation(now) => Revoke(row, Stamp(now))
  }

  function After(row: Session, policy: SessionPolicy, calls: seq<Call>): Session
    requires policy.Valid()
  {
    if calls == [] then row else
      Step(After(row, policy, calls[..|calls| - 1]), policy, calls[|calls| - 1])
  }

  // --- The same run in instants ---

  function LifeStep(policy: SessionPolicy, life: Lifetime, call: Call): (after: Lifetime)
    requires policy.Valid() && HasEnd(policy, life.created)
    ensures after.created == life.created
  {
    match call
    case Touch(now) => TouchedLife(policy, life, now)
    case Revocation(now) => if life.revoked.None? then life.(revoked := Some(now)) else life
  }

  function LifeAfter(policy: SessionPolicy, life: Lifetime, calls: seq<Call>): (after: Lifetime)
    requires policy.Valid() && HasEnd(policy, life.created)
    ensures after.created == life.created
  {
    if calls == [] then life else
      LifeStep(policy, LifeAfter(policy, life, calls[..|calls| - 1]), calls[|calls| - 1])
  }

  lemma RevokeStoresRevocation(key: Identity, policy: SessionPolicy, life: Lifetime, now: Instant)
    requires policy.Valid() && HasEnd(policy, life.created)
    ensures Revoke(RowOf(key, policy, life), Stamp(now))
            == RowOf(key, policy, LifeStep(policy, life, Revocation(now)))
  {
    RevokeMarks(RowOf(key, policy, life), Stamp(now));
    if life.revoked.None? {
      RowOfRevoked(key, policy, life, now);
    }
  }

  lemma RevokeMarks(row: Session, stamp: string)
    ensures Revoke(row, stamp) == if row.revokedAt.None? then row.(revokedAt := Some(stamp)) else row
  {
  }

  lemma RowOfRevoked(key: Identity, policy: SessionPolicy, life: Lifetime, now: Instant)
    requires policy.Valid() && HasEnd(policy, life.created)
    ensures RowOf(key, policy, life.(revoked := Some(now))) == RowOf(key, policy, life).(revokedAt := Some(Stamp(now)))
  {
  }

  lemma StepStoresLifeStep(key: Identity, policy: SessionPolicy, life: Lifetime, call: Call)
    requires policy.Valid() && HasEnd(policy, life.created)
    ensures Step(RowOf(key, policy, life), policy, call) == RowOf(key, policy, LifeStep(policy, life, call))
  {
    match call
    case Touch(now) =>
      TouchedStoresTouchedLife(key, policy, life, now);
    case Revocation(now) =>
      RevokeStoresRevocation(key, policy, life, now);
  }

  /** Storing stamps and comparing them as strings refines keeping instants and comparing those, whatever the
      requests and whatever the clock does. */
  lemma {:induction false} RowsRefineLives(key: Identity, policy: SessionPolicy, life: Lifetime, calls: seq<Call>)
    requires policy.Valid() && HasEnd(policy, life.created)
    ensures After(RowOf(key, policy, life), policy, calls) == RowOf(key, policy, LifeAfter(policy, life, calls))
    decreases |calls|
  {
    if calls != [] {
      var n := |calls| - 1;
      RowsRefineLives(key, policy, life, calls[..n]);
      StepStoresLifeStep(key, policy, LifeAfter(policy, life, calls[..n]), calls[n]);
    }
  }

  // --- With a clock that never runs backwards ---

  predicate ClockRuns(first: Instant, calls: seq<Call>, last: Instant) {
    first <= last &&
    (forall i :: 0 <= i < |calls| ==> first <= calls[i].now <= last) &&
    (forall i, j :: 0 <= i < j < |calls| ==> calls[i].now <= calls[j].now)
  }

  predicate NeverRevoked(calls: seq<Call>) {
    forall i :: 0 <= i < |calls| ==> calls[i].Touch?
  }

  /** Creation and every attempt to touch, in order. An attempt whose new bound would lie past year 9999 is an
      error before anything is written, and is no activity. */
  function Activity(policy: SessionPolicy, created: Instant, calls: seq<Call>): (times: seq<Instant>)
    requires policy.Valid()
    ensures 0 < |times| && times[0] == created
  {
    if calls == [] then [created] else
      var call := calls[|calls| - 1];
      Activity(policy, created, calls[..|calls| - 1]) +
      if call.Touch? && Later(call.now, policy.idleTimeout).Some? then [call.now] else []
  }

  function LastActivity(policy: SessionPolicy, created: Instant, calls: seq<Call>): Instant
    requires policy.Valid()
  {
    var times := Activity(policy, created, calls);
    times[|times| - 1]
  }

  /** Every pause between successive times is below the limit. */
  predicate Gaps(times: seq<Instant>, limit: nat) {
    forall i :: 0 <= i < |times| - 1 ==> times[i + 1] - times[i] < limit
  }

  lemma GapsAppend(times: seq<Instant>, now: Instant, limit: nat)
    requires 0 < |times|
    ensures Gaps(times + [now], limit) <==> Gaps(times, limit) && now - times[|times| - 1] < limit
  {
    var longer := times + [now];
    if Gaps(longer, limit) {
      assert longer[|times| - 1 + 1] - longer[|times| - 1] < limit;
      forall i | 0 <= i < |times| - 1
        ensures times[i + 1] - times[i] < limit
      {
        assert longer[i + 1] - longer[i] < limit;
      }
    }
  }

  /** Active throughout: no pause reached the idle timeout and no activity the absolute bound. */
  predicate KeptAlive(policy: SessionPolicy, created: Instant, calls: seq<Call>)
    requires policy.Valid() && HasEnd(policy, created)
  {
    Gaps(Activity(policy, created, calls), policy.IdleSeconds()) &&
    LastActivity(policy, created, calls) < End(policy, created)
  }

  lemma {:induction false} ActivityIsBefore(policy: SessionPolicy, created: Instant, calls: seq<Call>, t: Instant)
    requires policy.Valid() && ClockRuns(created, calls, t)
    ensures created <= LastActivity(policy, created, calls) <= t
    decreases |calls|
  {
    if calls != [] {
      ActivityIsBefore(policy, created, calls[..|calls| - 1], t);
    }
  }

  /** What a life says of a run: while activity kept it alive, its last activity; otherwise an earlier one whose
      idle bound has passed. */
  predicate TellsActivity(policy: SessionPolicy, life: Lifetime, calls: seq<Call>)
    requires policy.Valid() && HasEnd(policy, life.created)
  {
    var last := LastActivity(policy, life.created, calls);
    life.revoked.None? && life.last <= last &&
    if KeptAlive(policy, life.created, calls) then life.last == last
    else IdleEnd(policy, life.created, life.last) <= last
  }

  lemma TouchKeepsTelling(policy: SessionPolicy, life: Lifetime, calls: seq<Call>, now: Instant)
    requires policy.Valid() && HasEnd(policy, life.created) && TellsActivity(policy, life, calls)
    requires LastActivity(policy, life.created, calls) <= now
    ensures TellsActivity(policy, TouchedLife(policy, life, now), calls + [Touch(now)])
  {
    var longer := calls + [Touch(now)];
    var times := Activity(policy, life.created, calls);
    assert longer[..|calls|] == calls;
    if Later(now, policy.idleTimeout).None? {
      assert Activity(policy, life.created, longer) == times;
    } else {
      assert Activity(policy, life.created, longer) == times + [now];
      GapsAppend(times, now, policy.IdleSeconds());
    }
  }

  lemma StartTellsActivity(policy: SessionPolicy, created: Instant)
    requires policy.Valid() && HasEnd(policy, created)
    ensures TellsActivity(policy, Lifetime(created, created, None), [])
  {
  }

  lemma {:induction false} RunTellsActivity(policy: SessionPolicy, created: Instant, calls: seq<Call>, t: Instant)
    requires policy.Valid() && HasEnd(policy, created) && ClockRuns(created, calls, t) && NeverRevoked(calls)
    ensures TellsActivity(policy, LifeAfter(policy, Lifetime(created, created, None), calls), calls)
    decreases |calls|
  {
    var start := Lifetime(created, created, None);
    if calls == [] {
      StartTellsActivity(policy, created);
    } else {
      var n := |calls| - 1;
      var front, now := calls[..n], calls[n].now;
      assert calls[n] == Touch(now) && calls == front + [Touch(now)];
      RunTellsActivity(policy, created, front, now);
      ActivityIsBefore(policy, created, front, now);
      var life := LifeAfter(policy, start, front);
      TouchKeepsTelling(policy, life, front, now);
      assert LifeAfter(policy, start, calls) == TouchedLife(policy, life, now);
    }
  }

  /** The last activity alone decides the next instant. */
  lemma AliveMeansActive(policy: SessionPolicy, life: Lifetime, calls: seq<Call>, t: Instant)
    requires policy.Valid() && HasEnd(policy, life.created) && TellsActivity(policy, life, calls)
    requires LastActivity(policy, life.created, calls) <= t
    ensures AliveAt(policy, life, t)
            <==> t < End(policy, life.created) &&
                 Gaps(Activity(policy, life.created, calls) + [t], policy.IdleSeconds())
  {
    GapsAppend(Activity(policy, life.created, calls), t, policy.IdleSeconds());
  }

  /** The timing law: at `t` a session is usable exactly when it was never revoked, `t` is before creation plus
      the absolute timeout, and every gap between successive attempts to touch it, from its creation and up to
      `t`, is below the idle timeout. */
  lemma UsableExactlyWhenActive(
    key: Identity, policy: SessionPolicy, created: Instant, calls: seq<Call>, t: Instant)
    requires policy.Valid() && HasEnd(policy, created) && ClockRuns(created, calls, t)
    ensures UsableAt(After(RowOf(key, policy, Lifetime(created, created, None)), policy, calls), t)
            <==> NeverRevoked(calls) && t < End(policy, created) &&
                 Gaps(Activity(policy, created, calls) + [t], policy.IdleSeconds())
  {
    var start := Lifetime(created, created, None);
    RowsRefineLives(key, policy, start, calls);
    UsableMeansAlive(key, policy, LifeAfter(policy, start, calls), t);
    if NeverRevoked(calls) {
      RunTellsActivity(policy, created, calls, t);
      ActivityIsBefore(policy, created, calls, t);
      AliveMeansActive(policy, LifeAfter(policy, start, calls), calls, t);
    } else {
      RevocationIsKept(policy, start, calls);
    }
  }

  /** A run that holds a revocation leaves a revoked session. */
  lemma {:induction false} RevocationIsKept(policy: SessionPolicy, life: Lifetime, calls: seq<Call>)
    requires policy.Valid() && HasEnd(policy, life.created)
    ensures !NeverRevoked(calls) ==> LifeAfter(policy, life, calls).revoked.Some?
    decreases |calls|
  {
    if calls != [] {
      var n := |calls| - 1;
      RevocationIsKept(policy, life, calls[..n]);
      if NeverRevoked(calls[..n]) && !NeverRevoked(calls) {
        assert calls[n].Revocation?;
      }
    }
  }

  /** A session that has ended stays ended: no later request renews it, and only the first revocation stamp can
      still be written. */
  lemma {:induction false} EndedStaysEnded(
    policy: SessionPolicy, life: Lifetime, calls: seq<Call>, t: Instant, later: Instant)
    requires policy.Valid() && HasEnd(policy, life.created)
    requires !AliveAt(policy, life, t) && ClockRuns(t, calls, later)
    ensures LifeAfter(policy, life, calls).(revoked := life.revoked) == life
    ensures life.revoked.Some? ==> LifeAfter(policy, life, calls) == life
    ensures !AliveAt(policy, LifeAfter(policy, life, calls), later)
    decreases |calls|
  {
    if calls != [] {
      var n := |calls| - 1;
      EndedStaysEnded(policy, life, calls[..n], t, calls[n].now);
    }
  }

  // --- Requests that overlap, and clocks that do not agree ---

  lemma WriteLeavesWhatATouchLeaves(key: Identity, policy: SessionPolicy, stored: Lifetime, now: Instant)
    requires policy.Valid() && HasEnd(policy, stored.created) && Later(now, policy.idleTimeout).Some?
    ensures
      var written := Renew(RowOf(key, policy, stored), Stamp(now), Stamp(IdleEnd(policy, stored.created, now)));
      Touched(RowOf(key, policy, stored), policy, now).1 ==
        if written.Some? then written.value else RowOf(key, policy, stored)
  {
    RenewIsRenewed(key, policy, stored, now);
    TouchedStoresTouchedLife(key, policy, stored, now);
  }

  /** The write a touch asks for does not depend on which earlier row of the session it read, and the conditions of
      the write already hold the check made on that row: landing on the row now stored, it leaves what a touch of
      that row would leave. */
  lemma StaleReadsWriteTheSame(key: Identity, policy: SessionPolicy, read: Lifetime, stored: Lifetime, now: Instant)
    requires policy.Valid() && HasEnd(policy, read.created) && stored.created == read.created
    requires AliveAt(policy, read, now) && Later(now, policy.idleTimeout).Some?
    ensures
      var row := RowOf(key, policy, read);
      InstantOf(row.absoluteExpiresAt).Some? &&
      var idleEnd := Min(Later(now, policy.idleTimeout).value, InstantOf(row.absoluteExpiresAt).value);
      var written := Renew(RowOf(key, policy, stored), Stamp(now), Stamp(idleEnd));
      var left := Touched(RowOf(key, policy, stored), policy, now).1;
      left == if written.Some? then written.value else RowOf(key, policy, stored)
  {
    RenewalBound(key, policy, read, now);
    WriteLeavesWhatATouchLeaves(key, policy, stored, now);
  }

  /** Whatever the order and whatever the clocks: creation and with it the absolute bound never move, activity
      and the idle bound never move back, and the first revocation stands. */
  lemma {:induction false} BoundsNeverMoveBack(policy: SessionPolicy, life: Lifetime, calls: seq<Call>)
    requires policy.Valid() && HasEnd(policy, life.created)
    ensures
      var after := LifeAfter(policy, life, calls);
      End(policy, after.created) == End(policy, life.created) && life.last <= after.last &&
      IdleEnd(policy, life.created, life.last) <= IdleEnd(policy, life.created, after.last) &&
      (life.revoked.Some? ==> after == life)
    decreases |calls|
  {
    if calls != [] {
      BoundsNeverMoveBack(policy, life, calls[..|calls| - 1]);
    }
  }

  function Latest(last: Instant, calls: seq<Call>): (r: Instant)
    ensures last <= r
  {
    if calls == [] then last else
      var front, now := Latest(last, calls[..|calls| - 1]), calls[|calls| - 1].now;
      if front <= now then now else front
  }

  lemma {:induction false} LatestIsGreatest(last: Instant, calls: seq<Call>)
    ensures Latest(last, calls) == last || exists i :: 0 <= i < |calls| && calls[i].now == Latest(last, calls)
    ensures forall i :: 0 <= i < |calls| ==> calls[i].now <= Latest(last, calls)
    decreases |calls|
  {
    if calls != [] {
      LatestIsGreatest(last, calls[..|calls| - 1]);
    }
  }

  /** Touches that all found the session alive. */
  predicate AllInTime(policy: SessionPolicy, life: Lifetime, calls: seq<Call>)
    requires policy.Valid() && HasEnd(policy, life.created)
  {
    NeverRevoked(calls) &&
    forall i :: 0 <= i < |calls| ==>
      life.last <= calls[i].now && AliveAt(policy, life, calls[i].now) &&
      Later(calls[i].now, policy.idleTimeout).Some?
  }

  /** They settle on the latest of them, whatever order they land in. */
  lemma {:induction false} TouchesInTimeSettle(policy: SessionPolicy, life: Lifetime, calls: seq<Call>)
    requires policy.Valid() && HasEnd(policy, life.created) && AllInTime(policy, life, calls)
    requires life.revoked.None?
    ensures LifeAfter(policy, life, calls) == life.(last := Latest(life.last, calls))
    decreases |calls|
  {
    if calls != [] {
      var n := |calls| - 1;
      TouchesInTimeSettle(policy, life, calls[..n]);
      assert calls[n].Touch? && AliveAt(policy, life, calls[n].now);
    }
  }

  lemma SameCallsSettleAlike(policy: SessionPolicy, life: Lifetime, calls: seq<Call>, reordered: seq<Call>)
    requires policy.Valid() && HasEnd(policy, life.created) && life.revoked.None?
    requires AllInTime(policy, life, calls) && multiset(calls) == multiset(reordered)
    ensures LifeAfter(policy, life, calls) == LifeAfter(policy, life, reordered)
  {
    forall i | 0 <= i < |reordered|
      ensures reordered[i] in calls
    {
      assert reordered[i] in multiset(reordered);
    }
    forall i | 0 <= i < |calls|
      ensures calls[i] in reordered
    {
      assert calls[i] in multiset(calls);
    }
    TouchesInTimeSettle(policy, life, calls);
    TouchesInTimeSettle(policy, life, reordered);
    LatestIsGreatest(life.last, calls);
    LatestIsGreatest(life.last, reordered);
  }

  /** So the order in which touches land is irrelevant, down to the last character stored. */
  lemma LandingOrderIsIrrelevant(
    key: Identity, policy: SessionPolicy, life: Lifetime, calls: seq<Call>, reordered: seq<Call>)
    requires policy.Valid() && HasEnd(policy, life.created) && life.revoked.None?
    requires AllInTime(policy, life, calls) && multiset(calls) == multiset(reordered)
    ensures After(RowOf(key, policy, life), policy, calls) == After(RowOf(key, policy, life), policy, reordered)
  {
    SameCallsSettleAlike(policy, life, calls, reordered);
    RowsRefineLives(key, policy, life, calls);
    RowsRefineLives(key, policy, life, reordered);
  }

  // --- Timeouts that are not whole seconds ---

  /** A session that is never touched is usable for its idle timeout rounded down to whole seconds. */
  lemma UntouchedSessionEnds(key: Identity, policy: SessionPolicy, created: Instant, t: Instant)
    requires policy.Valid() && HasEnd(policy, created) && created <= t
    ensures UsableAt(RowOf(key, policy, Lifetime(created, created, None)), t) <==> t - created < policy.IdleSeconds()
  {
    UsableMeansAlive(key, policy, Lifetime(created, created, None), t);
  }

  /** Comparing a gap of whole seconds with the rounded timeouts is comparing it with the timeouts as configured. */
  ghost predicate RoundsUnseen(policy: SessionPolicy, gap: nat)
    requires policy.Valid()
  {
    (gap < policy.IdleSeconds() <==> gap * SECOND < policy.idleTimeout) &&
    (gap < policy.AbsoluteSeconds() <==> gap * SECOND < policy.absoluteTimeout)
  }

  /** Rounding is never seen exactly when both timeouts are whole seconds. */
  lemma RoundingIsUnseenExactlyWhenWhole(policy: SessionPolicy)
    requires policy.Valid()
    ensures (forall gap: nat :: RoundsUnseen(policy, gap))
            <==> policy.idleTimeout % SECOND == 0 && policy.absoluteTimeout % SECOND == 0
  {
    if forall gap: nat :: RoundsUnseen(policy, gap) {
      assert RoundsUnseen(policy, policy.IdleSeconds()) && RoundsUnseen(policy, policy.AbsoluteSeconds());
    }
  }

  /** Any other idle timeout ends an untouched session early: its last part of a second is never granted. */
  lemma PartOfASecondIsLost(key: Identity, policy: SessionPolicy, created: Instant, t: Instant)
    requires policy.Valid() && HasEnd(policy, created) && policy.idleTimeout % SECOND != 0
    requires t == created + policy.IdleSeconds()
    ensures (t - created) * SECOND < policy.idleTimeout
    ensures !UsableAt(RowOf(key, policy, Lifetime(created, created, None)), t)
  {
    UntouchedSessionEnds(key, policy, created, t);
  }
}
