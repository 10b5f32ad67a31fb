/** Remediation edits that overlap (services/remediation_service.py, routers/remediations.py,
    tasks/scheduler.py): a PATCH or the nightly job loads a row, decides, and commits later.
    The commit writes only the columns that differ from what was loaded. */
module RemediationRaces {
  import opened Wrappers
  import opened Remediations

  /** A PATCH, or the nightly job that found the CVE gone. */
  datatype Change = ByPatch(patch: Patch, users: set<string>, caller: Caller) | ByJob(now: int, note: string)

  function Changed(r: Row, change: Change): Result<Row, Error> {
    match change
    case ByPatch(p, users, c) => if CanSee(c, r.pair) then Update(r, p, users, c) else Err(Forbidden)
    case ByJob(now, note) => Ok(AutoResolved(r, {KeyOf(r)}, now, note))
  }

  function Written<T(==)>(before: T, after: T, current: T): T {
    if after == before then current else after
  }

  /** The UPDATE of a session that loaded `before` and left it as `after`. */
  function Overlay(before: Row, after: Row, current: Row): Row {
    current.(status := Written(before.status, after.status, current.status),
             assignedTo := Written(before.assignedTo, after.assignedTo, current.assignedTo),
             targetDate := Written(before.targetDate, after.targetDate, current.targetDate),
             notes := Written(before.notes, after.notes, current.notes),
             wontFixReason := Written(before.wontFixReason, after.wontFixReason, current.wontFixReason),
             resolvedAt := Written(before.resolvedAt, after.resolvedAt, current.resolvedAt),
             resolvedBy := Written(before.resolvedBy, after.resolvedBy, current.resolvedBy),
             verifiedAt := Written(before.verifiedAt, after.verifiedAt, current.verifiedAt))
  }

  /** Whether a status change decided on `before` still fits the committed row. Reopening a
      row the job resolved clears no resolver, because none was loaded. */
  predicate StillFits(before: Row, after: Row, current: Row) {
    if after.status == before.status then true
    else match after.status
      case WontFix => !current.status.Resolved?
      case Resolved => !current.status.WontFix?
      case _ =>
        || Editable(current.status)
        || (before.status == current.status && (current.resolvedBy.Some? ==> before.resolvedBy.Some?))
  }

  lemma ChangedIsOk(r: Row, change: Change)
    requires RowOk(r) && Changed(r, change).Ok?
    ensures RowOk(Changed(r, change).value) && KeyOf(Changed(r, change).value) == KeyOf(r)
  {
    if change.ByPatch? {
      UpdateKeepsRow(r, change.patch, change.users, change.caller);
    }
  }

  /** Without an overlap the commit writes what was decided. */
  lemma UndisturbedCommit(before: Row, change: Change)
    requires Changed(before, change).Ok?
    ensures Overlay(before, Changed(before, change).value, before) == Changed(before, change).value
  {
    if change.ByPatch? {
      SameIdentity(before, change.patch, change.users, change.caller);
    }
  }

  lemma SameIdentity(r: Row, p: Patch, users: set<string>, c: Caller)
    requires Update(r, p, users, c).Ok?
    ensures var u := Update(r, p, users, c).value;
      u.cveId == r.cveId && u.pair == r.pair && u.createdBy == r.createdBy
  {
  }

  /** The columns a status change writes, and what an edit without one leaves alone. */
  lemma CoupledColumns(before: Row, change: Change)
    requires RowOk(before) && Changed(before, change).Ok?
    ensures var after := Changed(before, change).value;
      if after.status == before.status then
        after.wontFixReason == before.wontFixReason && after.resolvedAt == before.resolvedAt
        && after.resolvedBy == before.resolvedBy && after.verifiedAt == before.verifiedAt
      else
        || after.status in Transitions(before.status)
        || (change.ByJob? && Editable(before.status) && after.status.Resolved?)
  {
    if change.ByPatch? {
      PatchColumns(before, change.patch, change.users, change.caller);
    }
  }

  lemma PatchColumns(r: Row, p: Patch, users: set<string>, c: Caller)
    requires RowOk(r) && Update(r, p, users, c).Ok?
    ensures var u := Update(r, p, users, c).value;
      if p.status.Some? then
        var t := ApplyStatus(r, p.status.value, p.wontFixReason, c);
        && t.Ok? && u.status == t.value.status && u.wontFixReason == t.value.wontFixReason
        && u.resolvedAt == t.value.resolvedAt && u.resolvedBy == t.value.resolvedBy
        && u.verifiedAt == t.value.verifiedAt
        && u.status in Transitions(r.status) && u.status != r.status
      else
        && u.status == r.status && u.wontFixReason == r.wontFixReason && u.resolvedAt == r.resolvedAt
        && u.resolvedBy == r.resolvedBy && u.verifiedAt == r.verifiedAt
  {
  }

  /** Exactly when a late commit leaves a consistent row. */
  lemma LateCommitIff(before: Row, change: Change, current: Row)
    requires RowOk(before) && RowOk(current) && Changed(before, change).Ok?
    ensures var after := Changed(before, change).value;
      RowOk(Overlay(before, after, current)) <==> StillFits(before, after, current)
  {
    CoupledColumns(before, change);
    ChangedIsOk(before, change);
    if change.ByPatch? {
      PatchColumns(before, change.patch, change.users, change.caller);
    }
  }

  // ----- interleaved sessions -----

  /** A session holds the row it loaded and the row it wants. */
  datatype Session = Session(id: nat, before: Row, after: Row)

  datatype System = System(store: Store, sessions: map<nat, Session>)

  datatype Action =
    | Load(session: nat, id: nat, change: Change)
    | Save(session: nat)
    | Whole(op: Op)

  function Next(s: System, a: Action): System {
    match a
    case Load(n, id, change) =>
      if n in s.sessions || id !in s.store.rows || Changed(s.store.rows[id], change).Err? then s
      else s.(sessions := s.sessions[n := Session(id, s.store.rows[id], Changed(s.store.rows[id], change).value)])
    case Save(n) =>
      if n !in s.sessions then s
      else s.(store := Saved(s.store, s.sessions[n]), sessions := s.sessions - {n})
    // creation, deletion and anything else that loads and commits at once
    case Whole(op) => s.(store := Commit(s.store, op))
  }

  /** A row deleted in the meantime stays deleted. */
  function Saved(s: Store, x: Session): Store {
    if x.id in s.rows then s.(rows := s.rows[x.id := Overlay(x.before, x.after, s.rows[x.id])]) else s
  }

  /** The step saves a status change that no longer fits. */
  predicate Clobbers(s: System, a: Action) {
    a.Save? && a.session in s.sessions
    && var x := s.sessions[a.session];
       x.id in s.store.rows && !StillFits(x.before, x.after, s.store.rows[x.id])
  }

  ghost predicate Decided(x: Session) {
    RowOk(x.before) && exists change :: Changed(x.before, change) == Ok(x.after)
  }

  ghost predicate SessionsOk(s: System) {
    forall n :: n in s.sessions ==> Decided(s.sessions[n])
  }

  lemma SavedIff(s: Store, x: Session)
    requires StoreOk(s) && Decided(x) && x.id in s.rows
    ensures StoreOk(Saved(s, x)) <==> StillFits(x.before, x.after, s.rows[x.id])
  {
    var change :| Changed(x.before, change) == Ok(x.after);
    LateCommitIff(x.before, change, s.rows[x.id]);
    assert forall id :: id in s.rows ==> KeyOf(Saved(s, x).rows[id]) == KeyOf(s.rows[id]);
  }

  lemma StepIff(s: System, a: Action)
    requires StoreOk(s.store) && SessionsOk(s)
    ensures SessionsOk(Next(s, a))
    ensures StoreOk(Next(s, a).store) <==> !Clobbers(s, a)
  {
    match a
    case Load(n, id, change) =>
      if n !in s.sessions && id in s.store.rows && Changed(s.store.rows[id], change).Ok? {
        assert Decided(Session(id, s.store.rows[id], Changed(s.store.rows[id], change).value));
      }
    case Save(n) =>
      if n in s.sessions && s.sessions[n].id in s.store.rows {
        SavedIff(s.store, s.sessions[n]);
      }
    case Whole(op) => CommitKeepsStore(s.store, op);
  }

  ghost predicate Trace(states: seq<System>, actions: seq<Action>) {
    && |states| == |actions| + 1 && states[0] == System(Store(map[], 0), map[])
    && forall i :: 0 <= i < |actions| ==> states[i + 1] == Next(states[i], actions[i])
  }

  /** Along every interleaving the store is consistent after each step iff no step saved a
      status change that no longer fitted. */
  lemma {:induction false} OverlapsKeepStoreIff(states: seq<System>, actions: seq<Action>, k: nat)
    requires Trace(states, actions) && k < |states|
    ensures (forall i :: 0 <= i <= k ==> StoreOk(states[i].store))
            <==> (forall i :: 0 <= i < k ==> !Clobbers(states[i], actions[i]))
    ensures SessionsOk(states[k]) || exists i :: 0 <= i < k && Clobbers(states[i], actions[i])
  {
    if k > 0 {
      OverlapsKeepStoreIff(states, actions, k - 1);
      if forall i :: 0 <= i < k - 1 ==> !Clobbers(states[i], actions[i]) {
        assert StoreOk(states[k - 1].store) && SessionsOk(states[k - 1]);
        StepIff(states[k - 1], actions[k - 1]);
        assert states[k] == Next(states[k - 1], actions[k - 1]);
      }
    }
  }

  /** The overlap that fails: of two PATCHes that loaded one in-progress row, the first
      resolves it and the second refuses to fix it. */
  lemma ResolvedAndWontFix(s: System, id: nat, c: Caller, reason: string)
    requires StoreOk(s.store) && s.sessions == map[] && id in s.store.rows && s.store.rows[id].status.InProgress?
    requires CanSee(c, s.store.rows[id].pair) && reason != ""
    ensures var resolve := Patch(Some(Resolved), Omitted, Omitted, Omitted, None);
      var refuse := Patch(Some(WontFix), Omitted, Omitted, Omitted, Some(reason));
      var both := Next(Next(s, Load(0, id, ByPatch(resolve, {}, c))), Load(1, id, ByPatch(refuse, {}, c)));
      var t := Next(Next(both, Save(0)), Save(1));
      id in t.store.rows && t.store.rows[id].status.WontFix? && t.store.rows[id].resolvedAt.Some? && !StoreOk(t.store)
  {
  }
}
