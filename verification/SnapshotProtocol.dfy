/** The cross-cluster access snapshot of one process (stackrox/namespace_access.py): the
    refresh loop and cold requests share one lock, one snapshot and one failure time.

    Code between two awaits runs without interruption, so each action below is one such
    stretch, and a run is any interleaving of them. `log` records what happened. */
module SnapshotProtocol {
  import opened Wrappers

  const REFRESH_INTERVAL_SECONDS: real := 300.0
  const ERROR_RETRY_SECONDS: real := 30.0
  const MAX_STALENESS_SECONDS: real := 3.0 * REFRESH_INTERVAL_SECONDS
  const COLD_LOAD_TIMEOUT_SECONDS: real := 2.0
  const LOAD_RETRY_SECONDS: real := 30.0

  /** `started` is when the query behind the snapshot was sent. */
  datatype Snapshot = Snapshot(started: real, loadedAt: real)

  datatype Request =
    | Waiting(deadline: real)
    | Querying(started: real, deadline: real)
    | Closing(result: Snapshot, deadline: real)

  datatype Loop = Sleeping(until: real) | LoopWaiting | LoopQuerying(started: real)

  datatype Holder = Free | HeldByLoop | HeldBy(id: nat)

  datatype Event =
    | Published(snapshot: Snapshot)
    | RequestQuery(at: real)
    | RequestFailed(at: real)
    | Served(at: real, snapshot: Snapshot)

  datatype State = State(
    now: real, snapshot: Option<Snapshot>, lastFailed: Option<real>, holder: Holder,
    requests: map<nat, Request>, loop: Loop, log: seq<Event>)

  datatype Action =
    | Tick(seconds: real)
    | Arrive(id: nat)
    | Acquire(id: nat)
    | Complete(id: nat)
    | Finish(id: nat)
    | Fail(id: nat)
    | Timeout(id: nat)
    | Cancel(id: nat)
    | LoopWake
    | LoopAcquire
    | LoopComplete(closed: bool)
    | LoopFail

  function Init(): State {
    State(0.0, None, None, Free, map[], Sleeping(0.0), [])
  }

  // ----- the actions -----

  /** A recorded on-demand failure still holds requests back. */
  predicate HoldsBack(s: State) {
    s.lastFailed.Some? && s.now - s.lastFailed.value < LOAD_RETRY_SECONDS
  }

  /** Serve a snapshot unless it is stale; stale snapshots serve nothing. */
  function Serve(s: State, snapshot: Snapshot): State {
    if s.now - snapshot.loadedAt <= MAX_STALENESS_SECONDS then s.(log := s.log + [Served(s.now, snapshot)]) else s
  }

  function Drop(s: State, id: nat): State {
    s.(requests := s.requests - {id}, holder := if s.holder == HeldBy(id) then Free else s.holder)
  }

  function Publish(s: State, started: real): State {
    var snapshot := Snapshot(started, s.now);
    s.(snapshot := Some(snapshot), lastFailed := None, log := s.log + [Published(snapshot)])
  }

  function RecordFailure(s: State, id: nat): State {
    Drop(s, id).(lastFailed := Some(s.now), log := s.log + [RequestFailed(s.now)])
  }

  predicate Enabled(s: State, a: Action) {
    match a
    case Tick(seconds) => seconds >= 0.0
    case Arrive(id) => id !in s.requests
    case Acquire(id) => id in s.requests && s.requests[id].Waiting? && s.holder == Free
    case Complete(id) => id in s.requests && s.requests[id].Querying?
    case Finish(id) => id in s.requests && s.requests[id].Closing?
    case Fail(id) => id in s.requests && !s.requests[id].Waiting?
    case Timeout(id) => id in s.requests && s.now >= s.requests[id].deadline
    case Cancel(id) => id in s.requests
    case LoopWake => s.loop.Sleeping? && s.now >= s.loop.until
    case LoopAcquire => s.loop.LoopWaiting? && s.holder == Free
    case LoopComplete(_) => s.loop.LoopQuerying?
    case LoopFail => s.loop.LoopQuerying?
  }

  function Next(s: State, a: Action): State
    requires Enabled(s, a)
  {
    match a
    case Tick(seconds) => s.(now := s.now + seconds)
    // resolve_cross_cluster_namespaces up to the first await
    case Arrive(id) =>
      if s.snapshot.Some? then Serve(s, s.snapshot.value)
      else if HoldsBack(s) then s
      else s.(requests := s.requests[id := Waiting(s.now + COLD_LOAD_TIMEOUT_SECONDS)])
    // _load_on_demand once it has the lock: both checks are repeated
    case Acquire(id) =>
      if s.snapshot.Some? then Serve(Drop(s, id), s.snapshot.value)
      else if HoldsBack(s) then Drop(s, id)
      else s.(holder := HeldBy(id), requests := s.requests[id := Querying(s.now, s.requests[id].deadline)],
              log := s.log + [RequestQuery(s.now)])
    // the query returned: publish, then close the session with the lock still held
    case Complete(id) =>
      var request := s.requests[id];
      var closing := Closing(Snapshot(request.started, s.now), request.deadline);
      Publish(s, request.started).(requests := s.requests[id := closing])
    case Finish(id) => Serve(Drop(s, id), s.requests[id].result)
    case Fail(id) => RecordFailure(s, id)
    case Timeout(id) => RecordFailure(s, id)
    // a disconnected client is not recorded as a failure
    case Cancel(id) => Drop(s, id)
    case LoopWake => s.(loop := LoopWaiting)
    case LoopAcquire => s.(loop := LoopQuerying(s.now), holder := HeldByLoop)
    case LoopComplete(closed) =>
      Publish(s, s.loop.started).(holder := Free,
        loop := Sleeping(s.now + if closed then REFRESH_INTERVAL_SECONDS else ERROR_RETRY_SECONDS))
    case LoopFail => s.(holder := Free, loop := Sleeping(s.now + ERROR_RETRY_SECONDS))
  }

  // ----- what every event promises about the past -----

  function At(e: Event): real {
    if e.Published? then e.snapshot.loadedAt else e.at
  }

  function LastPublished(log: seq<Event>): Option<Snapshot> {
    if log == [] then None
    else if log[|log| - 1].Published? then Some(log[|log| - 1].snapshot)
    else LastPublished(log[..|log| - 1])
  }

  predicate Justified(past: seq<Event>, e: Event) {
    match e
    case Published(snapshot) =>
      && snapshot.started <= snapshot.loadedAt
      && forall p :: p in past && p.Published? ==> p.snapshot.loadedAt <= snapshot.started
    case RequestQuery(at) =>
      forall p :: p in past ==> !p.Published? && (p.RequestFailed? ==> at - p.at >= LOAD_RETRY_SECONDS)
    case RequestFailed(_) => true
    case Served(at, snapshot) =>
      at - snapshot.loadedAt <= MAX_STALENESS_SECONDS && LastPublished(past) == Some(snapshot)
  }

  ghost predicate GoodLog(log: seq<Event>) {
    forall j :: 0 <= j < |log| ==> Justified(log[..j], log[j])
  }

  // ----- the invariant -----

  predicate InFlight(r: Request) {
    !r.Waiting?
  }

  ghost predicate LockInv(s: State) {
    && (forall id :: id in s.requests ==> (InFlight(s.requests[id]) <==> s.holder == HeldBy(id)))
    && (forall id :: s.holder == HeldBy(id) ==> id in s.requests)
    && (s.loop.LoopQuerying? <==> s.holder == HeldByLoop)
  }

  ghost predicate QueryInv(s: State) {
    && (forall id :: id in s.requests && s.requests[id].Querying? ==>
          s.snapshot.None? && s.requests[id].started <= s.now)
    && (forall id :: id in s.requests && s.requests[id].Closing? ==> s.snapshot == Some(s.requests[id].result))
    && (s.loop.LoopQuerying? ==>
          s.loop.started <= s.now && (s.snapshot.Some? ==> s.snapshot.value.loadedAt <= s.loop.started))
    && (s.snapshot.Some? ==> s.snapshot.value.loadedAt <= s.now)
  }

  /** What the globals know about the log. */
  ghost predicate Known(log: seq<Event>, snapshot: Option<Snapshot>, lastFailed: Option<real>, now: real) {
    && GoodLog(log)
    && snapshot == LastPublished(log)
    && (forall e :: e in log && e.Published? ==> snapshot.Some? && e.snapshot.loadedAt <= snapshot.value.loadedAt)
    && (snapshot.None? ==> forall e :: e in log && e.RequestFailed? ==> lastFailed.Some? && e.at <= lastFailed.value)
    && (lastFailed.Some? ==> lastFailed.value <= now)
    && (forall e :: e in log ==> At(e) <= now)
  }

  ghost predicate LogInv(s: State) {
    Known(s.log, s.snapshot, s.lastFailed, s.now)
  }

  ghost predicate Inv(s: State) {
    LockInv(s) && QueryInv(s) && LogInv(s)
  }

  lemma LogAppend(log: seq<Event>, e: Event)
    requires GoodLog(log) && Justified(log, e)
    ensures GoodLog(log + [e])
    ensures LastPublished(log + [e]) == if e.Published? then Some(e.snapshot) else LastPublished(log)
  {
    var longer := log + [e];
    assert longer[..|log|] == log;
    forall j | 0 <= j < |longer| ensures Justified(longer[..j], longer[j]) {
      if j < |log| { assert longer[..j] == log[..j]; }
    }
  }

  lemma AppendedMembers(log: seq<Event>, e: Event)
    ensures forall x :: x in log + [e] <==> x in log || x == e
  {
  }

  lemma ServeKeepsInv(s: State)
    requires Inv(s) && s.snapshot.Some?
    ensures Inv(Serve(s, s.snapshot.value))
  {
    if s.now - s.snapshot.value.loadedAt <= MAX_STALENESS_SECONDS {
      LogAppend(s.log, Served(s.now, s.snapshot.value));
    }
  }

  lemma DropKeepsInv(s: State, id: nat)
    requires Inv(s) && id in s.requests
    ensures Inv(Drop(s, id))
  {
  }

  lemma FailureIsKnown(log: seq<Event>, snapshot: Option<Snapshot>, lastFailed: Option<real>, now: real)
    requires Known(log, snapshot, lastFailed, now)
    ensures Known(log + [RequestFailed(now)], snapshot, Some(now), now)
  {
    var f := RequestFailed(now);
    assert Justified(log, f);
    LogAppend(log, f);
    forall e | e in log + [f] ensures At(e) <= now && (e == f || e in log) {}
  }

  lemma FailureKeepsInv(s: State, id: nat)
    requires Inv(s) && id in s.requests
    ensures Inv(RecordFailure(s, id))
  {
    DropKeepsInv(s, id);
    FailureIsKnown(s.log, s.snapshot, s.lastFailed, s.now);
  }

  /** The log half of publishing: the query behind it started after the previous publish. */
  lemma PublishKeepsLog(s: State, started: real)
    requires LogInv(s) && started <= s.now && (s.snapshot.Some? ==> s.snapshot.value.loadedAt <= started)
    ensures LogInv(Publish(s, started))
  {
    PublishIsKnown(s.log, s.snapshot, s.lastFailed, s.now, started);
  }

  lemma PublishIsKnown(log: seq<Event>, snapshot: Option<Snapshot>, lastFailed: Option<real>, now: real, started: real)
    requires Known(log, snapshot, lastFailed, now) && started <= now
    requires snapshot.Some? ==> snapshot.value.loadedAt <= started
    ensures Known(log + [Published(Snapshot(started, now))], Some(Snapshot(started, now)), None, now)
  {
    var e := Published(Snapshot(started, now));
    forall p | p in log && p.Published? ensures p.snapshot.loadedAt <= started {}
    assert Justified(log, e);
    LogAppend(log, e);
    forall x | x in log + [e] && x.Published? ensures x.snapshot.loadedAt <= now {
      assert x in log || x == e;
    }
  }

  /** A request may query only with no snapshot and no recent failure. */
  lemma QueryIsKnown(log: seq<Event>, lastFailed: Option<real>, now: real)
    requires Known(log, None, lastFailed, now)
    requires lastFailed.Some? ==> now - lastFailed.value >= LOAD_RETRY_SECONDS
    ensures Known(log + [RequestQuery(now)], None, lastFailed, now)
  {
    var e := RequestQuery(now);
    forall p | p in log ensures !p.Published? && (p.RequestFailed? ==> now - p.at >= LOAD_RETRY_SECONDS) {}
    assert Justified(log, e);
    LogAppend(log, e);
    AppendedMembers(log, e);
  }

  lemma StepKeepsInv(s: State, a: Action)
    requires Inv(s) && Enabled(s, a)
    ensures Inv(Next(s, a))
  {
    match a
    case Tick(_) =>
    case Arrive(id) => if s.snapshot.Some? { ServeKeepsInv(s); }
    case Acquire(id) =>
      DropKeepsInv(s, id);
      if s.snapshot.Some? {
        ServeKeepsInv(Drop(s, id));
      } else if !HoldsBack(s) {
        QueryIsKnown(s.log, s.lastFailed, s.now);
      }
    case Complete(id) =>
      PublishKeepsLog(s, s.requests[id].started);
      CompleteKeepsLock(s, id);
    case Finish(id) =>
      DropKeepsInv(s, id);
      ServeKeepsInv(Drop(s, id));
    case Fail(id) => FailureKeepsInv(s, id);
    case Timeout(id) => FailureKeepsInv(s, id);
    case Cancel(id) => DropKeepsInv(s, id);
    case LoopWake =>
    case LoopAcquire =>
    case LoopComplete(_) =>
      PublishKeepsLog(s, s.loop.started);
      LoopIsAlone(s);
    case LoopFail =>
  }

  lemma CompleteKeepsLock(s: State, id: nat)
    requires Inv(s) && Enabled(s, Complete(id))
    ensures LockInv(Next(s, Complete(id))) && QueryInv(Next(s, Complete(id)))
  {
    assert s.holder == HeldBy(id);
    forall other | other in s.requests && other != id ensures s.requests[other].Waiting? {
      assert s.holder != HeldBy(other);
    }
  }

  lemma LoopIsAlone(s: State)
    requires Inv(s) && s.loop.LoopQuerying?
    ensures forall id :: id in s.requests ==> s.requests[id].Waiting?
  {
  }

  // ----- runs -----

  lemma StepKeepsSnapshot(s: State, a: Action)
    requires Inv(s) && Enabled(s, a) && s.snapshot.Some?
    ensures Next(s, a).snapshot.Some?
    ensures s.snapshot.value.loadedAt <= Next(s, a).snapshot.value.loadedAt
  {
  }

  ghost predicate Trace(states: seq<State>, actions: seq<Action>) {
    && |states| == |actions| + 1 && states[0] == Init()
    && forall i :: 0 <= i < |actions| ==> Enabled(states[i], actions[i]) && states[i + 1] == Next(states[i], actions[i])
  }

  lemma {:induction false} RunKeepsInv(states: seq<State>, actions: seq<Action>, k: nat)
    requires Trace(states, actions) && k < |states|
    ensures forall i :: 0 <= i <= k ==> Inv(states[i])
  {
    if k > 0 {
      RunKeepsInv(states, actions, k - 1);
      StepKeepsInv(states[k - 1], actions[k - 1]);
    }
  }

  predicate IsQuerying(s: State, id: nat) {
    id in s.requests && s.requests[id].Querying?
  }

  /** At most one query is in flight, by the loop or by a request. */
  lemma OneQueryInFlight(states: seq<State>, actions: seq<Action>, k: nat)
    requires Trace(states, actions) && k < |states|
    ensures forall a, b :: IsQuerying(states[k], a) && IsQuerying(states[k], b) ==> a == b
    ensures states[k].loop.LoopQuerying? ==> forall a :: !IsQuerying(states[k], a)
  {
    RunKeepsInv(states, actions, k);
  }

  /** Every published query started after the previous snapshot was published, so an older
      result never replaces a newer one and `loaded_at` never decreases. */
  lemma PublishesInOrder(states: seq<State>, actions: seq<Action>, i: nat, j: nat)
    requires Trace(states, actions)
    requires var log := states[|actions|].log; i < j < |log| && log[i].Published? && log[j].Published?
    ensures var log := states[|actions|].log;
      log[i].snapshot.loadedAt <= log[j].snapshot.started <= log[j].snapshot.loadedAt
  {
    RunKeepsInv(states, actions, |actions|);
    var log := states[|actions|].log;
    assert Justified(log[..j], log[j]);
    assert log[..j][i] == log[i] && log[i] in log[..j];
  }

  /** No request starts a query once a snapshot exists, or within the retry time of any
      on-demand failure before it, however many requests came in between. */
  lemma RequestsHoldBack(states: seq<State>, actions: seq<Action>, i: nat, j: nat)
    requires Trace(states, actions)
    requires var log := states[|actions|].log; i < j < |log| && log[j].RequestQuery?
    ensures var log := states[|actions|].log;
      !log[i].Published? && (log[i].RequestFailed? ==> log[j].at - log[i].at >= LOAD_RETRY_SECONDS)
  {
    RunKeepsInv(states, actions, |actions|);
    var log := states[|actions|].log;
    assert Justified(log[..j], log[j]);
    assert log[..j][i] == log[i] && log[i] in log[..j];
  }

  /** What is served is the latest published snapshot, and never a stale one. */
  lemma ServedIsFresh(states: seq<State>, actions: seq<Action>, j: nat)
    requires Trace(states, actions)
    requires var log := states[|actions|].log; j < |log| && log[j].Served?
    ensures var log := states[|actions|].log;
      log[j].at - log[j].snapshot.loadedAt <= MAX_STALENESS_SECONDS && LastPublished(log[..j]) == Some(log[j].snapshot)
  {
    RunKeepsInv(states, actions, |actions|);
    var log := states[|actions|].log;
    assert Justified(log[..j], log[j]);
  }

  /** The snapshot a process holds never gets older along a run, and never disappears. */
  lemma {:induction false} SnapshotNeverGoesBack(states: seq<State>, actions: seq<Action>, i: nat, j: nat)
    requires Trace(states, actions) && i <= j < |states| && states[i].snapshot.Some?
    ensures states[j].snapshot.Some? && states[i].snapshot.value.loadedAt <= states[j].snapshot.value.loadedAt
    decreases j
  {
    if i < j {
      SnapshotNeverGoesBack(states, actions, i, j - 1);
      RunKeepsInv(states, actions, j - 1);
      StepKeepsSnapshot(states[j - 1], actions[j - 1]);
    }
  }

  // ----- what each request and each load comes to -----

  /** At most fifteen minutes old. */
  predicate IsFresh(s: State, snapshot: Snapshot) {
    s.now - snapshot.loadedAt <= 900.0
  }

  /** The request is over: nothing of it is left, and a lock it held is free. */
  ghost predicate Ended(s: State, t: State, id: nat) {
    && id !in t.requests && (forall other :: other != id ==>
         (other in t.requests <==> other in s.requests)
         && (other in s.requests ==> t.requests[other] == s.requests[other]))
    && t.holder == (if s.holder == HeldBy(id) then Free else s.holder)
    && t.loop == s.loop && t.now == s.now
  }

  /** The log gains exactly these events. */
  predicate Logs(s: State, t: State, events: seq<Event>) {
    t.log == s.log + events
  }

  /** A request that finds a snapshot is answered from it on the spot when it is fresh, and
      with nothing otherwise. */
  lemma WarmArrivalIsAnswered(states: seq<State>, actions: seq<Action>, k: nat, id: nat)
    requires Trace(states, actions) && k < |actions| && actions[k] == Arrive(id) && states[k].snapshot.Some?
    ensures var s, t := states[k], states[k + 1];
      && t == s.(log := t.log)
      && Logs(s, t, if IsFresh(s, s.snapshot.value) then [Served(s.now, s.snapshot.value)] else [])
  {
    assert states[k + 1] == Next(states[k], actions[k]);
    assert states[k].log + [] == states[k].log;
  }

  /** A cold request waits two seconds for the lock, unless a load failed in the last thirty. */
  lemma ColdArrivalWaits(states: seq<State>, actions: seq<Action>, k: nat, id: nat)
    requires Trace(states, actions) && k < |actions| && actions[k] == Arrive(id) && states[k].snapshot.None?
    ensures var s, t := states[k], states[k + 1];
      if s.lastFailed.Some? && s.now - s.lastFailed.value < 30.0 then t == s
      else t == s.(requests := s.requests[id := Waiting(s.now + 2.0)])
  {
    assert states[k + 1] == Next(states[k], actions[k]);
  }

  /** A waiting request that gets the lock is answered if someone loaded a snapshot in the
      meantime, gives up if a load failed, and otherwise loads while it keeps the lock. */
  lemma WaitingRequestActs(states: seq<State>, actions: seq<Action>, k: nat, id: nat)
    requires Trace(states, actions) && k < |actions| && actions[k] == Acquire(id)
    ensures var s, t := states[k], states[k + 1];
      && t.snapshot == s.snapshot && t.lastFailed == s.lastFailed
      && (if s.snapshot.Some? then
            && Ended(s, t, id)
            && Logs(s, t, if IsFresh(s, s.snapshot.value) then [Served(s.now, s.snapshot.value)] else [])
          else if s.lastFailed.Some? && s.now - s.lastFailed.value < 30.0 then Ended(s, t, id) && t.log == s.log
          else
            && t.holder == HeldBy(id) && Logs(s, t, [RequestQuery(s.now)])
            && t.requests == s.requests[id := Querying(s.now, s.requests[id].deadline)])
  {
    assert states[k + 1] == Next(states[k], actions[k]);
    assert states[k].log + [] == states[k].log;
  }

  /** A finished query is published with its own start, clears the failure, and keeps the
      lock until the session is closed. */
  lemma LoadIsPublished(states: seq<State>, actions: seq<Action>, k: nat, id: nat)
    requires Trace(states, actions) && k < |actions| && actions[k] == Complete(id)
    ensures var s, t := states[k], states[k + 1];
      var loaded := Snapshot(s.requests[id].started, s.now);
      && t.snapshot == Some(loaded) && t.lastFailed == None && Logs(s, t, [Published(loaded)])
      && t.holder == s.holder == HeldBy(id)
      && t.requests == s.requests[id := Closing(loaded, s.requests[id].deadline)]
  {
    RunKeepsInv(states, actions, k);
    assert states[k + 1] == Next(states[k], actions[k]);
  }

  /** The request that loaded is answered from what it loaded. */
  lemma LoaderIsAnswered(states: seq<State>, actions: seq<Action>, k: nat, id: nat)
    requires Trace(states, actions) && k < |actions| && actions[k] == Finish(id)
    ensures var s, t := states[k], states[k + 1];
      && s.snapshot.Some? && Ended(s, t, id) && t.holder == Free
      && Logs(s, t, if IsFresh(s, s.snapshot.value) then [Served(s.now, s.snapshot.value)] else [])
  {
    RunKeepsInv(states, actions, k);
    assert states[k + 1] == Next(states[k], actions[k]);
    assert states[k].log + [] == states[k].log;
  }

  /** A request that fails or runs out of time is recorded as a failed load; one whose client
      left is not. */
  lemma UnansweredRequests(states: seq<State>, actions: seq<Action>, k: nat, id: nat)
    requires Trace(states, actions) && k < |actions|
    requires actions[k] == Fail(id) || actions[k] == Timeout(id) || actions[k] == Cancel(id)
    ensures var s, t := states[k], states[k + 1];
      && Ended(s, t, id) && t.snapshot == s.snapshot
      && (if actions[k].Cancel? then t.lastFailed == s.lastFailed && t.log == s.log
          else t.lastFailed == Some(s.now) && Logs(s, t, [RequestFailed(s.now)]))
  {
    assert states[k + 1] == Next(states[k], actions[k]);
  }

  /** The loop queries under the lock when it is due, publishes what it loaded, and comes back
      after five minutes, or after thirty seconds when something went wrong. */
  lemma LoopRefreshes(states: seq<State>, actions: seq<Action>, k: nat)
    requires Trace(states, actions) && k < |actions|
    ensures var s, t := states[k], states[k + 1];
      match actions[k]
      case LoopWake => t == s.(loop := LoopWaiting)
      case LoopAcquire => t == s.(loop := LoopQuerying(s.now), holder := HeldByLoop)
      case LoopComplete(closed) =>
        var loaded := Snapshot(s.loop.started, s.now);
        && t.snapshot == Some(loaded) && t.lastFailed == None && Logs(s, t, [Published(loaded)]) && t.holder == Free
        && t.loop == Sleeping(s.now + if closed then 300.0 else 30.0) && t.requests == s.requests
      case LoopFail => t == s.(holder := Free, loop := Sleeping(s.now + 30.0))
      case Tick(seconds) => t == s.(now := s.now + seconds)
      case _ => t.loop == s.loop
  {
    assert states[k + 1] == Next(states[k], actions[k]);
  }

  /** The lock is never stuck: whoever holds it can let go, and a request past its deadline
      can always be ended. */
  lemma NobodyIsStuck(states: seq<State>, actions: seq<Action>, k: nat)
    requires Trace(states, actions) && k < |states|
    ensures var s := states[k];
      match s.holder
      case Free => true
      case HeldByLoop => Enabled(s, LoopFail) && Next(s, LoopFail).holder == Free
      case HeldBy(id) => Enabled(s, Fail(id)) && Next(s, Fail(id)).holder == Free
    ensures forall id :: id in states[k].requests && states[k].requests[id].deadline <= states[k].now ==>
      Enabled(states[k], Timeout(id)) && id !in Next(states[k], Timeout(id)).requests
  {
    RunKeepsInv(states, actions, k);
  }
}
