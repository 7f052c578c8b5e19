/** Overlapping requests on one session. Each reads the row first and writes later, with anything in between; what
    is left is what the same requests leave one after another. */
module SessionSchedules {
  import opened Results
  import opened Calendar
  import opened Clock
  import opened Sessions
  import opened SessionServices
  import opened SessionRuns

  type RequestId = nat

  datatype Phase = NotBegun | Reading(call: Call, read: Session) | Ended(call: Call)

  /** The stored row, where each request stands, and the finished requests in the order they took effect. */
  datatype World = World(row: Session, phases: map<RequestId, Phase>, log: seq<(RequestId, Call)>)

  /** A request begins by reading the row, and its write lands later. Its clock reading and its computations are its
      own, so nothing is lost by making them part of the read. */
  datatype Action = Begin(request: RequestId, call: Call) | Land(request: RequestId)

  function PhaseOf(world: World, request: RequestId): Phase {
    if request in world.phases then world.phases[request] else NotBegun
  }

  /** A touch that its own read refuses raises, and never asks for a write. */
  predicate RefusedOnRead(read: Session, policy: SessionPolicy, call: Call)
    requires policy.Valid()
  {
    call.Touch? && !(UsableAt(read, call.now) && Later(call.now, policy.idleTimeout).Some?)
  }

  /** The conditional write of a request, computed from what it read, applied to what is stored now. */
  function Landed(stored: Session, policy: SessionPolicy, call: Call, read: Session): Session
    requires policy.Valid()
  {
    match call
    case Revocation(now) => Revoke(stored, Stamp(now))
    case Touch(now) =>
      if RefusedOnRead(read, policy, call) then stored
      else
        var idleEnd := Min(Later(now, policy.idleTimeout).value, InstantOf(read.absoluteExpiresAt).value);
        var written := Renew(stored, Stamp(now), Stamp(idleEnd));
        if written.Some? then written.value else stored
  }

  function Finish(world: World, request: RequestId, call: Call): World {
    world.(phases := world.phases[request := Ended(call)], log := world.log + [(request, call)])
  }

  function Act(world: World, policy: SessionPolicy, action: Action): World
    requires policy.Valid()
  {
    var phase := PhaseOf(world, action.request);
    match action
    case Begin(request, call) =>
      if !phase.NotBegun? then world
      else if RefusedOnRead(world.row, policy, call) then Finish(world, request, call)
      else world.(phases := world.phases[request := Reading(call, world.row)])
    case Land(request) =>
      if !phase.Reading? then world
      else Finish(world, request, phase.call).(row := Landed(world.row, policy, phase.call, phase.read))
  }

  function Play(world: World, policy: SessionPolicy, schedule: seq<Action>): World
    requires policy.Valid()
  {
    if schedule == [] then world else
      Act(Play(world, policy, schedule[..|schedule| - 1]), policy, schedule[|schedule| - 1])
  }

  function Opening(row: Session): World {
    World(row, map[], [])
  }

  function Calls(log: seq<(RequestId, Call)>): (calls: seq<Call>)
    ensures |calls| == |log|
  {
    seq(|log|, i requires 0 <= i < |log| => log[i].1)
  }

  // --- The log lists each finished request once ---

  ghost predicate InLog(log: seq<(RequestId, Call)>, request: RequestId, call: Call) {
    exists i :: 0 <= i < |log| && log[i] == (request, call)
  }

  /** Each finished request is in the log once, with the call it was begun with, and nothing else is. */
  ghost predicate LogsFinished(world: World) {
    (forall request: RequestId, call: Call :: InLog(world.log, request, call) <==> PhaseOf(world, request) == Ended(call)) &&
    (forall i, j :: 0 <= i < j < |world.log| ==> world.log[i].0 != world.log[j].0)
  }

  lemma InLongerLog(log: seq<(RequestId, Call)>, request: RequestId, call: Call, r: RequestId, c: Call)
    ensures InLog(log + [(request, call)], r, c) <==> InLog(log, r, c) || (r == request && c == call)
  {
    var longer := log + [(request, call)];
    assert longer[|log|] == (request, call);
    if i :| 0 <= i < |log| && log[i] == (r, c) {
      assert longer[i] == (r, c);
    }
  }

  lemma FinishLogsOneMore(world: World, request: RequestId, call: Call)
    requires LogsFinished(world) && !PhaseOf(world, request).Ended?
    ensures LogsFinished(Finish(world, request, call))
  {
    var next := Finish(world, request, call);
    forall i | 0 <= i < |world.log|
      ensures world.log[i].0 != request
    {
      assert InLog(world.log, world.log[i].0, world.log[i].1);
    }
    forall r: RequestId, c: Call
      ensures InLog(next.log, r, c) <==> PhaseOf(next, r) == Ended(c)
    {
      InLongerLog(world.log, request, call, r, c);
      assert InLog(world.log, r, c) <==> PhaseOf(world, r) == Ended(c);
    }
  }

  lemma ActLogsFinished(world: World, policy: SessionPolicy, action: Action)
    requires policy.Valid() && LogsFinished(world)
    ensures LogsFinished(Act(world, policy, action))
  {
    var phase := PhaseOf(world, action.request);
    match action
    case Begin(request, call) =>
      if phase.NotBegun? && RefusedOnRead(world.row, policy, call) {
        FinishLogsOneMore(world, request, call);
      }
    case Land(request) =>
      if phase.Reading? {
        FinishLogsOneMore(world, request, phase.call);
        assert LogsFinished(Act(world, policy, action)) <==> LogsFinished(Finish(world, request, phase.call)) by {
          SameBooksLogAlike(Act(world, policy, action), Finish(world, request, phase.call));
        }
      }
  }

  lemma SameBooksLogAlike(w: World, v: World)
    requires w.phases == v.phases && w.log == v.log
    ensures LogsFinished(w) <==> LogsFinished(v)
  {
    assert forall request: RequestId :: PhaseOf(w, request) == PhaseOf(v, request);
  }

  // --- What a request read ---

  /** The row stores some life of this session. */
  ghost predicate StoresALife(row: Session, key: Identity, policy: SessionPolicy, created: Instant)
    requires policy.Valid() && HasEnd(policy, created)
  {
    exists life: Lifetime :: life.created == created && row == RowOf(key, policy, life)
  }

  /** Every open request read such a row, and was not refused on it. */
  ghost predicate ReadsAreRows(world: World, key: Identity, policy: SessionPolicy, created: Instant)
    requires policy.Valid() && HasEnd(policy, created)
  {
    forall request: RequestId :: PhaseOf(world, request).Reading? ==>
      StoresALife(PhaseOf(world, request).read, key, policy, created) &&
      !RefusedOnRead(PhaseOf(world, request).read, policy, PhaseOf(world, request).call)
  }

  /** Landing leaves what serving the request on the spot would leave, whatever has landed since it read. */
  lemma LandingIsAStep(
    stored: Session, read: Session, key: Identity, policy: SessionPolicy, created: Instant, call: Call)
    requires policy.Valid() && HasEnd(policy, created)
    requires StoresALife(stored, key, policy, created) && StoresALife(read, key, policy, created)
    requires !RefusedOnRead(read, policy, call)
    ensures Landed(stored, policy, call, read) == Step(stored, policy, call)
  {
    if call.Touch? {
      var life: Lifetime :| life.created == created && stored == RowOf(key, policy, life);
      var earlier: Lifetime :| earlier.created == created && read == RowOf(key, policy, earlier);
      UsableMeansAlive(key, policy, earlier, call.now);
      StaleReadsWriteTheSame(key, policy, earlier, life, call.now);
    }
  }

  lemma RefusalIsAStep(row: Session, policy: SessionPolicy, call: Call)
    requires policy.Valid() && RefusedOnRead(row, policy, call)
    ensures Step(row, policy, call) == row
  {
    TouchRefused(row, policy, call.now);
  }

  // --- Every interleaving is serial ---

  /** The stored row is what serving the logged requests one after another leaves. */
  ghost predicate Serial(world: World, key: Identity, policy: SessionPolicy, start: Lifetime)
    requires policy.Valid() && HasEnd(policy, start.created)
  {
    world.row == After(RowOf(key, policy, start), policy, Calls(world.log)) &&
    LogsFinished(world) && ReadsAreRows(world, key, policy, start.created)
  }

  lemma ServedRowStoresALife(key: Identity, policy: SessionPolicy, start: Lifetime, calls: seq<Call>)
    requires policy.Valid() && HasEnd(policy, start.created)
    ensures StoresALife(After(RowOf(key, policy, start), policy, calls), key, policy, start.created)
  {
    RowsRefineLives(key, policy, start, calls);
  }

  lemma OneMoreServed(row: Session, policy: SessionPolicy, log: seq<(RequestId, Call)>, request: RequestId, call: Call)
    requires policy.Valid()
    ensures After(row, policy, Calls(log + [(request, call)])) == Step(After(row, policy, Calls(log)), policy, call)
  {
    assert Calls(log + [(request, call)])[..|log|] == Calls(log);
  }

  lemma RowStaysSerial(world: World, key: Identity, policy: SessionPolicy, start: Lifetime, action: Action)
    requires policy.Valid() && HasEnd(policy, start.created) && Serial(world, key, policy, start)
    ensures var next := Act(world, policy, action);
            next.row == After(RowOf(key, policy, start), policy, Calls(next.log))
  {
    var row, phase := RowOf(key, policy, start), PhaseOf(world, action.request);
    match action
    case Begin(request, call) =>
      if phase.NotBegun? && RefusedOnRead(world.row, policy, call) {
        OneMoreServed(row, policy, world.log, request, call);
        RefusalIsAStep(world.row, policy, call);
      }
    case Land(request) =>
      if phase.Reading? {
        OneMoreServed(row, policy, world.log, request, phase.call);
        ServedRowStoresALife(key, policy, start, Calls(world.log));
        LandingIsAStep(world.row, phase.read, key, policy, start.created, phase.call);
      }
  }

  lemma ReadsStayRows(world: World, key: Identity, policy: SessionPolicy, created: Instant, action: Action)
    requires policy.Valid() && HasEnd(policy, created)
    requires StoresALife(world.row, key, policy, created) && ReadsAreRows(world, key, policy, created)
    ensures ReadsAreRows(Act(world, policy, action), key, policy, created)
  {
    var next := Act(world, policy, action);
    forall request: RequestId | PhaseOf(next, request).Reading?
      ensures StoresALife(PhaseOf(next, request).read, key, policy, created)
      ensures !RefusedOnRead(PhaseOf(next, request).read, policy, PhaseOf(next, request).call)
    {
      if PhaseOf(next, request) != PhaseOf(world, request) {
        NewReadIsTheRow(world, policy, action, request);
      }
    }
  }

  lemma NewReadIsTheRow(world: World, policy: SessionPolicy, action: Action, request: RequestId)
    requires policy.Valid() && PhaseOf(Act(world, policy, action), request).Reading?
    requires PhaseOf(Act(world, policy, action), request) != PhaseOf(world, request)
    ensures PhaseOf(Act(world, policy, action), request).read == world.row
    ensures !RefusedOnRead(world.row, policy, PhaseOf(Act(world, policy, action), request).call)
  {
    assert action.request == request;
  }

  /** Every interleaving of touches and revocations, under any clocks, leaves the row that the same requests leave
      when each is served alone: each finished request once, in the order in which it took effect. A touch refused
      on what it read took effect when it read; any other request when its write landed. */
  lemma {:induction false} EveryInterleavingIsSerial(
    key: Identity, policy: SessionPolicy, start: Lifetime, schedule: seq<Action>)
    requires policy.Valid() && HasEnd(policy, start.created)
    ensures Serial(Play(Opening(RowOf(key, policy, start)), policy, schedule), key, policy, start)
    decreases |schedule|
  {
    if schedule == [] {
      assert Calls([]) == [];
    } else {
      var front, action := schedule[..|schedule| - 1], schedule[|schedule| - 1];
      EveryInterleavingIsSerial(key, policy, start, front);
      var world := Play(Opening(RowOf(key, policy, start)), policy, front);
      RowStaysSerial(world, key, policy, start, action);
      ActLogsFinished(world, policy, action);
      ServedRowStoresALife(key, policy, start, Calls(world.log));
      ReadsStayRows(world, key, policy, start.created, action);
    }
  }

  /** The serial order respects real time: requests that had finished when another began come before it. */
  lemma {:induction false} FinishedComesFirst(world: World, policy: SessionPolicy, schedule: seq<Action>, n: nat)
    requires policy.Valid() && n <= |schedule|
    ensures Play(world, policy, schedule[..n]).log <= Play(world, policy, schedule).log
    decreases |schedule|
  {
    if n == |schedule| {
      assert schedule[..n] == schedule;
    } else {
      var front := schedule[..|schedule| - 1];
      assert front[..n] == schedule[..n];
      FinishedComesFirst(world, policy, front, n);
    }
  }
}
