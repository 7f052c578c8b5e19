/** The session record and its timing (identity/sessions.py:88-204), with the conditional writes the session
    repository promises (identity/repository.py:112-140; review_persistence/sqlite/session_repository.py:67-83). */
module Sessions {
  import opened Results
  import opened Calendar
  import opened Clock

  type SessionId = nat

  type UserId = nat

  /** A digest of a bearer token: the only form in which a token is stored or looked up. */
  type TokenHash = nat

  /** A duration in microseconds, as a `timedelta` holds it. */
  type Duration = int

  const SECOND: Duration := 1_000_000

  datatype SessionPolicy = SessionPolicy(idleTimeout: Duration, warningAfter: Duration, absoluteTimeout: Duration) {
    /** What construction insists on. */
    predicate Valid() {
      0 < warningAfter < idleTimeout < absoluteTimeout
    }

    /** The idle timeout as stamps can hold it: whole seconds. */
    function IdleSeconds(): (n: nat)
      requires Valid()
    {
      idleTimeout / SECOND
    }

    function AbsoluteSeconds(): (n: nat)
      requires Valid()
    {
      absoluteTimeout / SECOND
    }
  }

  datatype Session = Session(
    sessionId: SessionId, userId: UserId, tokenHash: TokenHash, createdAt: string, lastActivityAt: string,
    idleExpiresAt: string, absoluteExpiresAt: string, revokedAt: Option<string>)
  {
    /** The check on construction: the idle bound never exceeds the absolute one, compared as strings. */
    predicate Valid() {
      !Less(absoluteExpiresAt, idleExpiresAt)
    }

    /** The stamps are ones the formatter wrote. */
    predicate Readable() {
      InstantOf(createdAt).Some? && InstantOf(lastActivityAt).Some? &&
      InstantOf(idleExpiresAt).Some? && InstantOf(absoluteExpiresAt).Some?
    }

    predicate IsRevoked() {
      revokedAt.Some?
    }

    predicate IsIdleExpired(now: Instant)
      requires Readable()
    {
      InstantOf(idleExpiresAt).value <= now
    }

    predicate IsAbsolutelyExpired(now: Instant)
      requires Readable()
    {
      InstantOf(absoluteExpiresAt).value <= now
    }

    predicate IsValidAt(now: Instant)
      requires Readable()
    {
      !(IsRevoked() || IsAbsolutelyExpired(now) || IsIdleExpired(now))
    }
  }

  /** A clock reading in microseconds: what the injected clock returns. */
  type Reading = m: int | 0 <= m < END_OF_TIME * SECOND witness 0

  /** `utc_now`: the reading without its microseconds. */
  function UtcNow(reading: Reading): (now: Instant)
    ensures now * SECOND <= reading < (now + 1) * SECOND
  {
    reading / SECOND
  }

  /** `now + timedelta`, then formatting: microseconds are dropped, and a year after 9999 is an error. */
  function Later(now: Instant, d: Duration): (t: Option<Instant>)
    requires 0 <= d
    ensures t.Some? <==> now + d / SECOND < END_OF_TIME
    ensures t.Some? ==> t.value == now + d / SECOND
  {
    var moment := now * SECOND + d;
    assert moment / SECOND == now + d / SECOND;
    if moment < END_OF_TIME * SECOND then Some(moment / SECOND) else None
  }

  function Min(a: Instant, b: Instant): Instant {
    if a <= b then a else b
  }

  // --- The repository's conditional writes ---

  /** The renewal: one conditional update, every comparison on strings. */
  function Renew(row: Session, nowStamp: string, idleStamp: string): Option<Session> {
    if row.revokedAt.None? && !Less(nowStamp, row.lastActivityAt) &&
       Less(nowStamp, row.idleExpiresAt) && Less(nowStamp, row.absoluteExpiresAt)
    then Some(row.(lastActivityAt := nowStamp, idleExpiresAt := idleStamp))
    else None
  }

  /** The revocation: the first stamp stands. */
  function Revoke(row: Session, nowStamp: string): Session {
    if row.revokedAt.None? then row.(revokedAt := Some(nowStamp)) else row
  }

  // --- The same session in instants ---

  datatype Identity = Identity(sessionId: SessionId, userId: UserId, tokenHash: TokenHash)

  /** The life of a session: created, last renewed, and revoked at these instants. */
  datatype Lifetime = Lifetime(created: Instant, last: Instant, revoked: Option<Instant>)

  predicate HasEnd(policy: SessionPolicy, created: Instant)
    requires policy.Valid()
  {
    created + policy.AbsoluteSeconds() < END_OF_TIME
  }

  /** The absolute bound: fixed at creation. */
  function End(policy: SessionPolicy, created: Instant): (t: Instant)
    requires policy.Valid() && HasEnd(policy, created)
    ensures t == created + policy.AbsoluteSeconds()
  {
    created + policy.AbsoluteSeconds()
  }

  /** When a session last renewed at `last` ends if left alone: the idle bound, capped by the absolute one. */
  function IdleEnd(policy: SessionPolicy, created: Instant, last: Instant): (t: Instant)
    requires policy.Valid() && HasEnd(policy, created)
    ensures t <= End(policy, created) && t <= last + policy.IdleSeconds()
    ensures t == End(policy, created) || t == last + policy.IdleSeconds()
  {
    if last + policy.IdleSeconds() <= End(policy, created) then last + policy.IdleSeconds() else End(policy, created)
  }

  predicate AliveAt(policy: SessionPolicy, life: Lifetime, now: Instant)
    requires policy.Valid() && HasEnd(policy, life.created)
  {
    life.revoked.None? && now < IdleEnd(policy, life.created, life.last)
  }

  function StampIfSome(t: Option<Instant>): Option<string> {
    if t.Some? then Some(Stamp(t.value)) else None
  }

  /** The row that stores a life. */
  function RowOf(key: Identity, policy: SessionPolicy, life: Lifetime): Session
    requires policy.Valid() && HasEnd(policy, life.created)
  {
    Session(key.sessionId, key.userId, key.tokenHash, Stamp(life.created), Stamp(life.last),
            Stamp(IdleEnd(policy, life.created, life.last)), Stamp(End(policy, life.created)),
            StampIfSome(life.revoked))
  }

  /** Comparing the stored strings decides exactly what comparing the instants would. */
  lemma StringsDecideLikeInstants(key: Identity, policy: SessionPolicy, life: Lifetime, now: Instant)
    requires policy.Valid() && HasEnd(policy, life.created)
    ensures
      var row := RowOf(key, policy, life);
      (Less(Stamp(now), row.idleExpiresAt) <==> now < IdleEnd(policy, life.created, life.last)) &&
      (Less(Stamp(now), row.absoluteExpiresAt) <==> now < End(policy, life.created)) &&
      (Less(Stamp(now), row.lastActivityAt) <==> now < life.last)
  {
    StampsAreInstants(now, IdleEnd(policy, life.created, life.last));
    StampsAreInstants(now, End(policy, life.created));
    StampsAreInstants(now, life.last);
  }

  /** The stored bounds are readable, in order, and read back as the instants they were computed from. */
  lemma RowReadsBack(key: Identity, policy: SessionPolicy, life: Lifetime)
    requires policy.Valid() && HasEnd(policy, life.created)
    ensures
      var row := RowOf(key, policy, life);
      row.Valid() && row.Readable() &&
      InstantOf(row.createdAt) == Some(life.created) && InstantOf(row.lastActivityAt) == Some(life.last) &&
      InstantOf(row.idleExpiresAt) == Some(IdleEnd(policy, life.created, life.last)) &&
      InstantOf(row.absoluteExpiresAt) == Some(End(policy, life.created))
  {
    var idleEnd, end := IdleEnd(policy, life.created, life.last), End(policy, life.created);
    StampsAreInstants(end, idleEnd);
    StampsAreInstants(idleEnd, end);
    StampsAreInstants(life.created, life.created);
    StampsAreInstants(life.last, life.last);
  }

  /** A row is valid at an instant exactly when the life it stores is alive then: the capped idle bound already
      implies the absolute one. */
  lemma ValidMeansAlive(key: Identity, policy: SessionPolicy, life: Lifetime, now: Instant)
    requires policy.Valid() && HasEnd(policy, life.created)
    ensures RowOf(key, policy, life).Readable()
    ensures RowOf(key, policy, life).IsValidAt(now) <==> AliveAt(policy, life, now)
  {
    RowReadsBack(key, policy, life);
  }

  /** The conditional renewal in instants. */
  function Renewed(policy: SessionPolicy, life: Lifetime, now: Instant): Lifetime
    requires policy.Valid() && HasEnd(policy, life.created)
  {
    if life.last <= now && AliveAt(policy, life, now) then life.(last := now) else life
  }

  /** The conditional write on strings is the conditional renewal in instants. */
  lemma RenewIsRenewed(key: Identity, policy: SessionPolicy, life: Lifetime, now: Instant)
    requires policy.Valid() && HasEnd(policy, life.created)
    ensures
      var written := Renew(RowOf(key, policy, life), Stamp(now), Stamp(IdleEnd(policy, life.created, now)));
      if life.last <= now && AliveAt(policy, life, now)
      then written == Some(RowOf(key, policy, life.(last := now)))
      else written == None
  {
    StringsDecideLikeInstants(key, policy, life, now);
  }
}
