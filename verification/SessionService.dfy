/** Every transition a session can make (identity/session_service.py:67-271) over the stored sessions. */
module SessionServices {
  import opened Results
  import opened Calendar
  import opened Clock
  import opened Sessions

  datatype UserStatus = Active | Inactive

  datatype ExpiryReason = AbsoluteExpiry | IdleExpiry

  datatype SessionError =
    | SessionNotFound | SessionRevoked | SessionExpired(reason: ExpiryReason)
    | UserNotStored | InactiveUser | DuplicateSession | DateOverflow | UnreadableStamp

  /** `_assert_usable`: the reason a row may not be used at `now`, if there is one. */
  function AssertUsable(row: Session, now: Instant): Option<SessionError> {
    if row.revokedAt.Some? then Some(SessionRevoked)
    else if InstantOf(row.absoluteExpiresAt).None? then Some(UnreadableStamp)
    else if InstantOf(row.absoluteExpiresAt).value <= now then Some(SessionExpired(AbsoluteExpiry))
    else if InstantOf(row.idleExpiresAt).None? then Some(UnreadableStamp)
    else if InstantOf(row.idleExpiresAt).value <= now then Some(SessionExpired(IdleExpiry))
    else None
  }

  predicate UsableAt(row: Session, now: Instant) {
    AssertUsable(row, now).None?
  }

  /** The row a session starts as, unless its absolute bound lies past year 9999. */
  function Created(
    policy: SessionPolicy, now: Instant, id: SessionId, user: UserId, token: TokenHash): (r: Option<Session>)
    requires policy.Valid()
  {
    match Later(now, policy.absoluteTimeout)
    case None => None
    case Some(end) =>
      var idleEnd := Min(Later(now, policy.idleTimeout).value, end);
      Some(Session(id, user, token, Stamp(now), Stamp(now), Stamp(idleEnd), Stamp(end), None))
  }

  /** What a touch answers, and the row it leaves. */
  function Touched(row: Session, policy: SessionPolicy, now: Instant): (Result<Session, SessionError>, Session)
    requires policy.Valid()
  {
    if AssertUsable(row, now).Some? then (Err(AssertUsable(row, now).value), row)
    else
      match Later(now, policy.idleTimeout)
      case None => (Err(DateOverflow), row)
      case Some(idle) =>
        var idleEnd := Min(idle, InstantOf(row.absoluteExpiresAt).value);
        match Renew(row, Stamp(now), Stamp(idleEnd))
        case Some(renewed) => (Ok(renewed), renewed)
        case None => (Ok(row), row)
  }

  /** A created row stores a life that starts now. */
  lemma CreatedStoresALife(policy: SessionPolicy, now: Instant, id: SessionId, user: UserId, token: TokenHash)
    requires policy.Valid()
    ensures Created(policy, now, id, user, token) ==
      if HasEnd(policy, now) then Some(RowOf(Identity(id, user, token), policy, Lifetime(now, now, None))) else None
  {
    if HasEnd(policy, now) {
      var end := Later(now, policy.absoluteTimeout).value;
      assert end == End(policy, now);
      assert Min(Later(now, policy.idleTimeout).value, end) == IdleEnd(policy, now, now);
    }
  }

  lemma VerdictOfReadBounds(row: Session, end: Instant, idleEnd: Instant, now: Instant)
    requires InstantOf(row.absoluteExpiresAt) == Some(end) && InstantOf(row.idleExpiresAt) == Some(idleEnd)
    requires idleEnd <= end
    ensures AssertUsable(row, now) ==
      if row.revokedAt.Some? then Some(SessionRevoked)
      else if end <= now then Some(SessionExpired(AbsoluteExpiry))
      else if idleEnd <= now then Some(SessionExpired(IdleExpiry))
      else None
  {
  }

  /** The check on the stored strings passes exactly while the stored life is alive, and names the reason. */
  lemma UsableMeansAlive(key: Identity, policy: SessionPolicy, life: Lifetime, now: Instant)
    requires policy.Valid() && HasEnd(policy, life.created)
    ensures UsableAt(RowOf(key, policy, life), now) <==> AliveAt(policy, life, now)
    ensures AssertUsable(RowOf(key, policy, life), now) ==
      if life.revoked.Some? then Some(SessionRevoked)
      else if End(policy, life.created) <= now then Some(SessionExpired(AbsoluteExpiry))
      else if IdleEnd(policy, life.created, life.last) <= now then Some(SessionExpired(IdleExpiry))
      else None
  {
    RowReadsBack(key, policy, life);
    VerdictOfReadBounds(RowOf(key, policy, life), End(policy, life.created),
      IdleEnd(policy, life.created, life.last), now);
  }

  /** A touch in instants: an attempt whose renewed bound lies past year 9999 is an error before any write. */
  function TouchedLife(policy: SessionPolicy, life: Lifetime, now: Instant): Lifetime
    requires policy.Valid() && HasEnd(policy, life.created)
  {
    if Later(now, policy.idleTimeout).None? then life else Renewed(policy, life, now)
  }

  /** A touch that passes the check and the calendar asks for one conditional write. */
  lemma TouchAsksForARenewal(row: Session, policy: SessionPolicy, now: Instant, end: Instant)
    requires policy.Valid() && UsableAt(row, now) && Later(now, policy.idleTimeout).Some?
    requires InstantOf(row.absoluteExpiresAt) == Some(end)
    ensures
      var written := Renew(row, Stamp(now), Stamp(Min(Later(now, policy.idleTimeout).value, end)));
      Touched(row, policy, now) == if written.Some? then (Ok(written.value), written.value) else (Ok(row), row)
  {
  }

  lemma TouchRefused(row: Session, policy: SessionPolicy, now: Instant)
    requires policy.Valid() && !(UsableAt(row, now) && Later(now, policy.idleTimeout).Some?)
    ensures Touched(row, policy, now).1 == row
    ensures Touched(row, policy, now).0 == Err(if UsableAt(row, now) then DateOverflow else AssertUsable(row, now).value)
  {
  }

  lemma TouchAnswered(key: Identity, policy: SessionPolicy, life: Lifetime, now: Instant)
    requires policy.Valid() && HasEnd(policy, life.created)
    requires AliveAt(policy, life, now) && Later(now, policy.idleTimeout).Some?
    ensures
      var after := RowOf(key, policy, Renewed(policy, life, now));
      Touched(RowOf(key, policy, life), policy, now) == (Ok(after), after)
  {
    UsableMeansAlive(key, policy, life, now);
    RenewalBound(key, policy, life, now);
    TouchAsksForARenewal(RowOf(key, policy, life), policy, now, End(policy, life.created));
    RenewIsRenewed(key, policy, life, now);
  }

  lemma RenewalBound(key: Identity, policy: SessionPolicy, life: Lifetime, now: Instant)
    requires policy.Valid() && HasEnd(policy, life.created) && Later(now, policy.idleTimeout).Some?
    ensures InstantOf(RowOf(key, policy, life).absoluteExpiresAt) == Some(End(policy, life.created))
    ensures Min(Later(now, policy.idleTimeout).value, End(policy, life.created)) == IdleEnd(policy, life.created, now)
  {
    RowReadsBack(key, policy, life);
  }

  /** The error of a touch that is refused: revoked, past the absolute bound, past the idle bound, or a renewed bound past
      the last date, in that order. */
  lemma TouchRefusedBecause(key: Identity, policy: SessionPolicy, life: Lifetime, now: Instant)
    requires policy.Valid() && HasEnd(policy, life.created)
    requires !(AliveAt(policy, life, now) && Later(now, policy.idleTimeout).Some?)
    ensures
      Touched(RowOf(key, policy, life), policy, now).0 ==
      Err(if life.revoked.Some? then SessionRevoked
          else if End(policy, life.created) <= now then SessionExpired(AbsoluteExpiry)
          else if IdleEnd(policy, life.created, life.last) <= now then SessionExpired(IdleExpiry)
          else DateOverflow)
  {
    UsableMeansAlive(key, policy, life, now);
    TouchRefused(RowOf(key, policy, life), policy, now);
  }

  /** A touch answers a session exactly when the stored life is alive and the renewed bound is a date; what it
      answers is what it leaves stored. */
  lemma TouchAnswersWhileAlive(key: Identity, policy: SessionPolicy, life: Lifetime, now: Instant)
    requires policy.Valid() && HasEnd(policy, life.created)
    ensures
      var (answer, after) := Touched(RowOf(key, policy, life), policy, now);
      (answer.Ok? <==> AliveAt(policy, life, now) && Later(now, policy.idleTimeout).Some?) &&
      (answer.Ok? ==> answer.value == after)
  {
    if AliveAt(policy, life, now) && Later(now, policy.idleTimeout).Some? {
      TouchAnswered(key, policy, life, now);
    } else {
      TouchRefusedBecause(key, policy, life, now);
    }
  }

  /** A touch of the stored strings is a touch of the stored life. */
  lemma TouchedStoresTouchedLife(key: Identity, policy: SessionPolicy, life: Lifetime, now: Instant)
    requires policy.Valid() && HasEnd(policy, life.created)
    ensures Touched(RowOf(key, policy, life), policy, now).1 == RowOf(key, policy, TouchedLife(policy, life, now))
  {
    if AliveAt(policy, life, now) && Later(now, policy.idleTimeout).Some? {
      TouchAnswered(key, policy, life, now);
    } else {
      UsableMeansAlive(key, policy, life, now);
      TouchRefused(RowOf(key, policy, life), policy, now);
    }
  }

  // --- The stored sessions ---

  /** Rows by session id; the token digest is unique. */
  class SessionRepository {
    var rows: map<SessionId, Session>

    ghost predicate Valid()
      reads this
    {
      Keyed(rows)
    }

    constructor ()
      ensures Valid() && rows == map[]
    {
      rows := map[];
    }

    method CreateSession(session: Session) returns (stored: bool)
      requires Valid()
      modifies this
      ensures Valid()
      ensures stored <==> session.sessionId !in old(rows) && NoneFound(old(rows), session.tokenHash)
      ensures rows == if stored then old(rows)[session.sessionId := session] else old(rows)
    {
      if session.sessionId in rows || exists id :: id in rows && rows[id].tokenHash == session.tokenHash {
        return false;
      }
      rows := rows[session.sessionId := session];
      return true;
    }

    method GetSessionByTokenHash(token: TokenHash) returns (r: Option<Session>)
      requires Valid()
      ensures r.None? <==> NoneFound(rows, token)
      ensures r.Some? ==> Found(rows, token, r.value)
    {
      if id :| id in rows && rows[id].tokenHash == token {
        return Some(rows[id]);
      }
      return None;
    }

    method TouchSession(id: SessionId, nowStamp: string, idleStamp: string) returns (r: Option<Session>)
      requires Valid()
      modifies this
      ensures Valid()
      ensures r == if id in old(rows) then Renew(old(rows)[id], nowStamp, idleStamp) else None
      ensures rows == if r.Some? then old(rows)[id := r.value] else old(rows)
    {
      if id !in rows {
        return None;
      }
      r := Renew(rows[id], nowStamp, idleStamp);
      if r.Some? {
        rows := rows[id := r.value];
      }
    }

    method RevokeSession(id: SessionId, nowStamp: string) returns (r: Option<Session>)
      requires Valid()
      modifies this
      ensures Valid()
      ensures r == if id in old(rows) then Some(Revoke(old(rows)[id], nowStamp)) else None
      ensures rows == if r.Some? then old(rows)[id := r.value] else old(rows)
    {
      if id !in rows {
        return None;
      }
      r := Some(Revoke(rows[id], nowStamp));
      rows := rows[id := r.value];
    }
  }

  predicate Found(rows: map<SessionId, Session>, token: TokenHash, row: Session) {
    row.sessionId in rows && rows[row.sessionId] == row && row.tokenHash == token
  }

  predicate NoneFound(rows: map<SessionId, Session>, token: TokenHash) {
    forall id :: id in rows ==> rows[id].tokenHash != token
  }

  ghost predicate Keyed(rows: map<SessionId, Session>) {
    (forall id :: id in rows ==> rows[id].sessionId == id) &&
    (forall i, j :: i in rows && j in rows && rows[i].tokenHash == rows[j].tokenHash ==> i == j)
  }

  /** A token leads to at most one row. */
  lemma FoundIsUnique(rows: map<SessionId, Session>, token: TokenHash, row: Session, other: Session)
    requires Keyed(rows) && Found(rows, token, row) && Found(rows, token, other)
    ensures row == other
  {
    assert row.sessionId in rows && other.sessionId in rows;
  }

  class SessionService {
    const sessions: SessionRepository
    const policy: SessionPolicy

    ghost predicate Valid()
      reads sessions
    {
      sessions.Valid() && policy.Valid()
    }

    constructor (sessions: SessionRepository, policy: SessionPolicy)
      requires sessions.Valid() && policy.Valid()
      ensures Valid() && this.sessions == sessions && this.policy == policy
    {
      this.sessions := sessions;
      this.policy := policy;
    }

    method CreateSession(
      users: map<UserId, UserStatus>, user: UserId, newId: SessionId, newToken: TokenHash, reading: Reading)
      returns (r: Result<Session, SessionError>)
      requires Valid()
      modifies sessions
      ensures Valid()
      ensures user !in users ==> r == Err(UserNotStored)
      ensures user in users && users[user] != Active ==> r == Err(InactiveUser)
      ensures user in users && users[user] == Active && !HasEnd(policy, UtcNow(reading)) ==> r == Err(DateOverflow)
      ensures user in users && users[user] == Active && HasEnd(policy, UtcNow(reading)) ==>
        if newId !in old(sessions.rows) && NoneFound(old(sessions.rows), newToken) then r.Ok? else r == Err(DuplicateSession)
      ensures r.Ok? ==>
        Created(policy, UtcNow(reading), newId, user, newToken) == Some(r.value) &&
        sessions.rows == old(sessions.rows)[newId := r.value] &&
        r.value.sessionId == newId && r.value.userId == user && Found(sessions.rows, newToken, r.value)
      ensures r.Err? ==> sessions.rows == old(sessions.rows)
    {
      if user !in users {
        return Err(UserNotStored);
      }
      if users[user] != Active {
        return Err(InactiveUser);
      }
      CreatedStoresALife(policy, UtcNow(reading), newId, user, newToken);
      var session := Created(policy, UtcNow(reading), newId, user, newToken);
      if session.None? {
        return Err(DateOverflow);
      }
      var stored := sessions.CreateSession(session.value);
      r := if stored then Ok(session.value) else Err(DuplicateSession);
    }

    /** Reads only. A revoked or expired session reports that before the state of its owner. */
    method ResolveSession(users: map<UserId, UserStatus>, token: TokenHash, reading: Reading)
      returns (r: Result<Session, SessionError>)
      requires Valid()
      ensures NoneFound(sessions.rows, token) ==> r == Err(SessionNotFound)
      ensures forall row | Found(sessions.rows, token, row) ::
        r == if !UsableAt(row, UtcNow(reading)) then Err(AssertUsable(row, UtcNow(reading)).value)
             else if row.userId !in users then Err(SessionNotFound)
             else if users[row.userId] != Active then Err(InactiveUser)
             else Ok(row)
    {
      var found := sessions.GetSessionByTokenHash(token);
      if found.None? {
        return Err(SessionNotFound);
      }
      var session := found.value;
      forall row | Found(sessions.rows, token, row)
        ensures row == session
      {
        FoundIsUnique(sessions.rows, token, row, session);
      }
      var refusal := AssertUsable(session, UtcNow(reading));
      if refusal.Some? {
        return Err(refusal.value);
      }
      if session.userId !in users {
        return Err(SessionNotFound);
      }
      if users[session.userId] != Active {
        return Err(InactiveUser);
      }
      return Ok(session);
    }

    /** Look up, check, compute the new bounds, and ask for the conditional write; when it does not apply, look
        again and answer what is stored. */
    method TouchSession(token: TokenHash, reading: Reading) returns (r: Result<Session, SessionError>)
      requires Valid()
      modifies sessions
      ensures Valid()
      ensures NoneFound(old(sessions.rows), token) ==>
        r == Err(SessionNotFound) && sessions.rows == old(sessions.rows)
      ensures forall row | Found(old(sessions.rows), token, row) ::
        r == Touched(row, policy, UtcNow(reading)).0 &&
        sessions.rows == old(sessions.rows)[row.sessionId := Touched(row, policy, UtcNow(reading)).1]
    {
      var found := sessions.GetSessionByTokenHash(token);
      if found.None? {
        return Err(SessionNotFound);
      }
      var session := found.value;
      forall row | Found(sessions.rows, token, row)
        ensures row == session
      {
        FoundIsUnique(sessions.rows, token, row, session);
      }
      assert sessions.rows[session.sessionId := session] == sessions.rows;
      var now := UtcNow(reading);
      var refusal := AssertUsable(session, now);
      if refusal.Some? {
        return Err(refusal.value);
      }
      var idle := Later(now, policy.idleTimeout);
      if idle.None? {
        return Err(DateOverflow);
      }
      var idleEnd := Min(idle.value, InstantOf(session.absoluteExpiresAt).value);
      var updated := sessions.TouchSession(session.sessionId, Stamp(now), Stamp(idleEnd));
      if updated.Some? {
        return Ok(updated.value);
      }
      var again := sessions.GetSessionByTokenHash(token);
      FoundIsUnique(sessions.rows, token, again.value, session);
      return Ok(again.value);
    }

    method RevokeSession(token: TokenHash, reading: Reading) returns (r: Result<Session, SessionError>)
      requires Valid()
      modifies sessions
      ensures Valid()
      ensures NoneFound(old(sessions.rows), token) ==>
        r == Err(SessionNotFound) && sessions.rows == old(sessions.rows)
      ensures forall row | Found(old(sessions.rows), token, row) ::
        r == Ok(Revoke(row, Stamp(UtcNow(reading)))) &&
        sessions.rows == old(sessions.rows)[row.sessionId := Revoke(row, Stamp(UtcNow(reading)))]
    {
      var found := sessions.GetSessionByTokenHash(token);
      if found.None? {
        return Err(SessionNotFound);
      }
      var session := found.value;
      forall row | Found(sessions.rows, token, row)
        ensures row == session
      {
        FoundIsUnique(sessions.rows, token, row, session);
      }
      var revoked := sessions.RevokeSession(session.sessionId, Stamp(UtcNow(reading)));
      return Ok(revoked.value);
    }
  }
}
