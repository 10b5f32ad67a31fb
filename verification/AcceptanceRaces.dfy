/** Risk acceptance requests that overlap (routers/risk_acceptances.py, tasks/scheduler.py):
    a PUT, a review or the expiry job loads a row, decides, and commits later. The commit
    writes only the columns that differ from what was loaded. */
module AcceptanceRaces {
  import opened Wrappers
  import opened Ordering
  import opened Scopes
  import opened Acceptances

  datatype Change =
    | ByPut(body: Scope, expiresAt: Option<int>, deployments: seq<Deployment>, seen: set<ActiveKey>, caller: Caller)
    | ByReview(approved: bool, caller: Caller)
    | ByExpiry(now: int)

  /** What the handler makes of a loaded row. */
  function Decided(r: Acceptance, change: Change): Result<Acceptance, Refused> {
    var alone := Table(map[0 := r], 1);
    match change
    case ByPut(body, expiresAt, deployments, seen, c) =>
      (match Handle(alone, Modify(0, body, expiresAt, deployments, seen, c))
       case Ok(t) => Ok(t.rows[0])
       case Err(e) => Err(e))
    case ByReview(approved, c) =>
      (match Handle(alone, Review(0, approved, c))
       case Ok(t) => Ok(t.rows[0])
       case Err(e) => Err(e))
    case ByExpiry(now) => Ok(ExpiredBy(r, now))
  }

  function Written<T(==)>(before: T, after: T, current: T): T {
    if after == before then current else after
  }

  /** The UPDATE of a session that loaded `before` and left it as `after`. */
  function Overlay(before: Acceptance, after: Acceptance, current: Acceptance): Acceptance {
    current.(status := Written(before.status, after.status, current.status),
             scope := Written(before.scope, after.scope, current.scope),
             reviewedBy := Written(before.reviewedBy, after.reviewedBy, current.reviewedBy),
             expiresAt := Written(before.expiresAt, after.expiresAt, current.expiresAt))
  }

  /** Whether what was decided on `before` still fits the committed row. A request for
      several teams always does; an approval must find its scope or its reviewer written. */
  predicate StillFits(before: Acceptance, after: Acceptance, current: Acceptance) {
    var scopeIsSingle := after.scope != before.scope || IsSingleTeam(current.scope);
    var reviewerIsSet := after.reviewedBy != before.reviewedBy || current.reviewedBy.Some?;
    if after == before then true
    else match (before.status, after.status)
      case (Requested, Rejected) => reviewerIsSet
      case (Requested, Approved) => reviewerIsSet || IsSingleTeam(current.scope)
      case (Rejected, Approved) => scopeIsSingle
      case (Approved, Expired) => current.reviewedBy.Some? || IsSingleTeam(current.scope)
      case (Approved, Approved) =>
        || current.status.Requested?
        || (current.status.Rejected? && before.reviewedBy.None?)
        || (!current.status.Rejected? && (scopeIsSingle || (before.reviewedBy.None? && current.reviewedBy.Some?)))
      case _ => true
  }

  lemma UndisturbedCommit(before: Acceptance, change: Change)
    requires Decided(before, change).Ok?
    ensures Overlay(before, Decided(before, change).value, before) == Decided(before, change).value
  {
  }

  /** What a decision may look like. */
  lemma DecidedShape(before: Acceptance, change: Change)
    requires Decided(before, change).Ok?
    ensures var after := Decided(before, change).value;
      match change
      case ByPut(_, _, _, _, _) =>
        (before.status.Approved? || before.status.Rejected?) && after.reviewedBy.None?
        && after.status == StatusFor(after.scope)
      case ByReview(approved, c) =>
        before.status.Requested? && after.reviewedBy == Some(c.id) && after.scope == before.scope
        && after.status == if approved then Approved else Rejected
      case ByExpiry(now) => after == ExpiredBy(before, now)
  {
  }

  /** Exactly when a late commit leaves an accountable row. */
  lemma LateCommitIff(before: Acceptance, change: Change, current: Acceptance)
    requires Accountable(before) && Accountable(current) && Decided(before, change).Ok?
    ensures var after := Decided(before, change).value;
      Accountable(Overlay(before, after, current)) <==> StillFits(before, after, current)
  {
    DecidedShape(before, change);
  }

  // ----- interleaved sessions -----

  datatype Session = Session(id: nat, before: Acceptance, after: Acceptance)

  datatype System = System(table: Table, sessions: map<nat, Session>)

  datatype Action =
    | Load(session: nat, id: nat, change: Change)
    | Save(session: nat)
    | Whole(op: Op)

  function Saved(t: Table, x: Session): Table {
    if x.id in t.rows then t.(rows := t.rows[x.id := Overlay(x.before, x.after, t.rows[x.id])]) else t
  }

  /** A save that the partial unique index refuses is rolled back; a row cancelled in the
      meantime stays gone. */
  ghost function Next(s: System, a: Action): System {
    match a
    case Load(n, id, change) =>
      if n in s.sessions || id !in s.table.rows || Decided(s.table.rows[id], change).Err? then s
      else s.(sessions := s.sessions[n := Session(id, s.table.rows[id], Decided(s.table.rows[id], change).value)])
    case Save(n) =>
      if n !in s.sessions then s
      else
        var u := Saved(s.table, s.sessions[n]);
        System(if IndexHolds(u) then u else s.table, s.sessions - {n})
    // creation, cancellation and anything else that loads and commits at once
    case Whole(op) => s.(table := Step(s.table, op))
  }

  /** The step commits a decision that no longer fits. */
  ghost predicate Clobbers(s: System, a: Action) {
    a.Save? && a.session in s.sessions
    && var x := s.sessions[a.session];
       x.id in s.table.rows && IndexHolds(Saved(s.table, x)) && !StillFits(x.before, x.after, s.table.rows[x.id])
  }

  ghost predicate DecidedOnOk(x: Session) {
    Accountable(x.before) && exists change :: Decided(x.before, change) == Ok(x.after)
  }

  ghost predicate SessionsOk(s: System) {
    forall n :: n in s.sessions ==> DecidedOnOk(s.sessions[n])
  }

  lemma SavedIff(t: Table, x: Session)
    requires TableOk(t) && DecidedOnOk(x) && x.id in t.rows && IndexHolds(Saved(t, x))
    ensures TableOk(Saved(t, x)) <==> StillFits(x.before, x.after, t.rows[x.id])
  {
    var change :| Decided(x.before, change) == Ok(x.after);
    LateCommitIff(x.before, change, t.rows[x.id]);
    var u := Saved(t, x);
    assert u.rows[x.id] == Overlay(x.before, x.after, t.rows[x.id]);
    assert forall id :: id in t.rows && id != x.id ==> u.rows[id] == t.rows[id];
  }

  lemma StepIff(s: System, a: Action)
    requires TableOk(s.table) && SessionsOk(s)
    ensures SessionsOk(Next(s, a))
    ensures TableOk(Next(s, a).table) <==> !Clobbers(s, a)
  {
    match a
    case Load(n, id, change) =>
      if n !in s.sessions && id in s.table.rows && Decided(s.table.rows[id], change).Ok? {
        assert DecidedOnOk(Session(id, s.table.rows[id], Decided(s.table.rows[id], change).value));
      }
    case Save(n) =>
      if n in s.sessions && s.sessions[n].id in s.table.rows && IndexHolds(Saved(s.table, s.sessions[n])) {
        SavedIff(s.table, s.sessions[n]);
      }
    case Whole(op) => StepKeepsTable(s.table, op);
  }

  const START := System(Table(map[], 0), map[])

  ghost predicate Trace(states: seq<System>, actions: seq<Action>) {
    && |states| == |actions| + 1 && states[0] == START
    && forall i :: 0 <= i < |actions| ==> states[i + 1] == Next(states[i], actions[i])
  }

  /** Whatever overlaps, at most one active acceptance exists per CVE and scope. */
  lemma {:induction false} OverlapsKeepIndex(states: seq<System>, actions: seq<Action>, k: nat)
    requires Trace(states, actions) && k < |states|
    ensures IndexHolds(states[k].table)
  {
    if k > 0 {
      OverlapsKeepIndex(states, actions, k - 1);
      assert states[k] == Next(states[k - 1], actions[k - 1]);
    }
  }

  /** Along every interleaving each row stays accountable after every step iff no step
      commits a decision that no longer fits. */
  lemma {:induction false} OverlapsKeepTableIff(states: seq<System>, actions: seq<Action>, k: nat)
    requires Trace(states, actions) && k < |states|
    ensures (forall i :: 0 <= i <= k ==> TableOk(states[i].table))
            <==> forall i :: 0 <= i < k ==> !Clobbers(states[i], actions[i])
    ensures SessionsOk(states[k]) || exists i :: 0 <= i < k && Clobbers(states[i], actions[i])
  {
    if k > 0 {
      OverlapsKeepTableIff(states, actions, k - 1);
      if forall i :: 0 <= i < k - 1 ==> !Clobbers(states[i], actions[i]) {
        assert TableOk(states[k - 1].table) && SessionsOk(states[k - 1]);
        StepIff(states[k - 1], actions[k - 1]);
        assert states[k] == Next(states[k - 1], actions[k - 1]);
      }
    }
  }

  // ----- an approval that nobody gave -----

  const ALL_TEAMS := Scope(Everything, [])

  function OneTeam(d: Deployment): Scope {
    Scope(Namespaces, [Target(d.pair, None, None)])
  }

  lemma ScopesOfRun(d: Deployment)
    ensures Normalize(ALL_TEAMS, [d]) == Ok(ALL_TEAMS) && !IsSingleTeam(ALL_TEAMS)
    ensures Normalize(OneTeam(d), [d]) == Ok(OneTeam(d)) && IsSingleTeam(OneTeam(d))
  {
    var one := OneTeam(d);
    assert d in [d] && one.targets[1..] == [];
    assert FirstRefusal(Namespaces, one.targets, [d]) == None;
    NormalizedTargets(one, [d]);
    var n := Normalize(one, [d]).value;
    assert Stored(Namespaces, one.targets[0], [d]) == one.targets[0];
    assert one.targets[0] in one.targets;
    OnlyElement(n.targets, one.targets[0]);
    assert (set t | t in one.targets :: t.pair) == {d.pair};
  }

  lemma OnlyElement<T>(s: seq<T>, x: T)
    requires Distinct(s) && forall y :: y in s <==> y == x
    ensures s == [x]
  {
    assert x in s;
    forall i | 0 <= i < |s| ensures s[i] == x { assert s[i] in s; }
    FirstTwoDiffer(s);
  }

  lemma FirstTwoDiffer<T>(s: seq<T>)
    requires Distinct(s)
    ensures |s| <= 1 || s[0] != s[1]
  {
  }

  /** A system with one row and no open session. */
  function OneRow(a: Acceptance): System {
    System(Table(map[0 := a], 1), map[])
  }

  lemma OneRowHolds(a: Acceptance)
    ensures IndexHolds(OneRow(a).table)
  {
  }

  /** Two overlapping PUTs on the only row, for all teams and for one, saved in this order. */
  function Overlap(d: Deployment, c: Caller): seq<Action> {
    var wide, narrow := ByPut(ALL_TEAMS, None, [d], {}, c), ByPut(OneTeam(d), None, [d], {}, c);
    [Load(0, 0, wide), Load(1, 0, narrow), Save(0), Save(1)]
  }

  ghost function After(s: System, actions: seq<Action>): System
    decreases |actions|
  {
    if actions == [] then s else After(Next(s, actions[0]), actions[1..])
  }

  lemma {:induction false} AfterBoth(s: System, a: seq<Action>, b: seq<Action>)
    ensures After(s, a + b) == After(After(s, a), b)
    decreases |a|
  {
    if a == [] {
      assert a + b == b;
    } else {
      assert (a + b)[0] == a[0] && (a + b)[1..] == a[1..] + b;
      AfterBoth(Next(s, a[0]), a[1..], b);
    }
  }

  lemma AfterFour(s: System, l: seq<Action>)
    requires |l| == 4
    ensures After(s, l) == Next(Next(Next(Next(s, l[0]), l[1]), l[2]), l[3])
  {
    assert l == [l[0], l[1]] + [l[2], l[3]];
    AfterBoth(s, [l[0], l[1]], [l[2], l[3]]);
    AfterTwo(s, l[0], l[1]);
    AfterTwo(Next(Next(s, l[0]), l[1]), l[2], l[3]);
  }

  lemma OverlapResult(s: System, a: Acceptance, d: Deployment, c: Caller)
    requires s == OneRow(a) && (a.status.Approved? || a.status.Rejected?) && a.reviewedBy.Some? && a.expiresAt.None?
    requires !c.isSecTeam && c.hasNamespaces && c.id == a.createdBy
    requires a.scope == if a.status.Approved? then ALL_TEAMS else OneTeam(d)
    ensures After(s, Overlap(d, c)) ==
            OneRow(if a.status.Approved? then a.(status := Requested, scope := OneTeam(d), reviewedBy := None)
                   else a.(status := Approved, scope := ALL_TEAMS, reviewedBy := None))
  {
    ScopesOfRun(d);
    AfterFour(s, Overlap(d, c));
    var wide, narrow := ByPut(ALL_TEAMS, None, [d], {}, c), ByPut(OneTeam(d), None, [d], {}, c);
    var forAll := a.(status := Requested, scope := ALL_TEAMS, reviewedBy := None);
    var forOne := a.(status := Approved, scope := OneTeam(d), reviewedBy := None);
    assert Decided(a, wide) == Ok(forAll) && Decided(a, narrow) == Ok(forOne);
    LoadBoth(s, a, wide, forAll, narrow, forOne);
    SaveBoth(s.table, a, forAll, forOne);
  }

  lemma LoadBoth(s: System, a: Acceptance, first: Change, x: Acceptance, second: Change, y: Acceptance)
    requires s == OneRow(a) && Decided(a, first) == Ok(x) && Decided(a, second) == Ok(y)
    ensures Next(Next(s, Load(0, 0, first)), Load(1, 0, second)) ==
            System(s.table, map[0 := Session(0, a, x), 1 := Session(0, a, y)])
  {
  }

  lemma SaveBoth(t: Table, a: Acceptance, x: Acceptance, y: Acceptance)
    requires t == OneRow(a).table
    ensures Next(Next(System(t, map[0 := Session(0, a, x), 1 := Session(0, a, y)]), Save(0)), Save(1)) ==
            OneRow(Overlay(a, y, Overlay(a, x, a)))
  {
    var b := Overlay(a, x, a);
    var e := Overlay(a, y, b);
    OneRowHolds(b);
    OneRowHolds(e);
    assert Saved(t, Session(0, a, x)) == OneRow(b).table;
    assert Saved(OneRow(b).table, Session(0, a, y)) == OneRow(e).table;
    var one := System(OneRow(b).table, map[1 := Session(0, a, y)]);
    assert Next(System(t, map[0 := Session(0, a, x), 1 := Session(0, a, y)]), Save(0)) == one;
    assert Next(one, Save(1)) == OneRow(e);
  }

  /** Request for all teams, approval, an overlap of two PUTs, rejection, and the same
      overlap again. */
  function UnapprovedRun(cveId: string, d: Deployment, creator: Caller, reviewer: Caller): seq<Action> {
    ([Whole(Create(cveId, ALL_TEAMS, None, [d], {}, creator)), Whole(Review(0, true, reviewer))] + Overlap(d, creator))
    + ([Whole(Review(0, false, reviewer))] + Overlap(d, creator))
  }

  lemma Requests(cveId: string, d: Deployment, c: Caller)
    requires !c.isSecTeam && c.hasNamespaces
    ensures Next(START, Whole(Create(cveId, ALL_TEAMS, None, [d], {}, c))) ==
            OneRow(Acceptance(cveId, Requested, ALL_TEAMS, c.id, None, None))
  {
    ScopesOfRun(d);
    OneRowHolds(Acceptance(cveId, Requested, ALL_TEAMS, c.id, None, None));
  }

  lemma Reviews(a: Acceptance, approved: bool, c: Caller)
    requires c.isSecTeam && a.status.Requested?
    ensures Next(OneRow(a), Whole(Review(0, approved, c))) ==
            OneRow(a.(status := if approved then Approved else Rejected, reviewedBy := Some(c.id)))
  {
    var b := a.(status := if approved then Approved else Rejected, reviewedBy := Some(c.id));
    OneRowHolds(b);
    assert OneRow(a).table.rows[0 := b] == OneRow(b).table.rows;
  }

  lemma AfterOne(s: System, a: Action)
    ensures After(s, [a]) == Next(s, a)
  {
    assert [a][1..] == [];
  }

  lemma AfterTwo(s: System, a: Action, b: Action)
    ensures After(s, [a, b]) == Next(Next(s, a), b)
  {
    assert [a, b][1..] == [b];
    AfterOne(Next(s, a), b);
  }

  /** It ends with an acceptance for all teams that is approved, and that nobody reviewed. */
  lemma NobodyApproved(cveId: string, d: Deployment, creator: Caller, reviewer: Caller)
    requires !creator.isSecTeam && creator.hasNamespaces && reviewer.isSecTeam
    ensures var a := Acceptance(cveId, Approved, ALL_TEAMS, creator.id, None, None);
      After(START, UnapprovedRun(cveId, d, creator, reviewer)) == OneRow(a) && !Accountable(a)
  {
    var a := Acceptance(cveId, Requested, ALL_TEAMS, creator.id, None, None);
    var b := a.(status := Approved, reviewedBy := Some(reviewer.id));
    var e := a.(scope := OneTeam(d));
    var f := e.(status := Rejected, reviewedBy := Some(reviewer.id));
    var create, overlap := Whole(Create(cveId, ALL_TEAMS, None, [d], {}, creator)), Overlap(d, creator);
    var approve, reject := Whole(Review(0, true, reviewer)), Whole(Review(0, false, reviewer));
    Requests(cveId, d, creator);
    Reviews(a, true, reviewer);
    AfterTwo(START, create, approve);
    OverlapResult(OneRow(b), b, d, creator);
    AfterBoth(START, [create, approve], overlap);
    Reviews(e, false, reviewer);
    AfterOne(OneRow(e), reject);
    OverlapResult(OneRow(f), f, d, creator);
    AfterBoth(OneRow(e), [reject], overlap);
    AfterBoth(START, [create, approve] + overlap, [reject] + overlap);
    ScopesOfRun(d);
  }

  /** Every list of actions is a run. */
  lemma {:induction false} RunExists(actions: seq<Action>) returns (states: seq<System>)
    ensures Trace(states, actions) && states[|actions|] == After(START, actions)
    decreases |actions|
  {
    if actions == [] {
      return [START];
    }
    var n := |actions| - 1;
    var before := RunExists(actions[..n]);
    states := before + [Next(before[n], actions[n])];
    AfterBoth(START, actions[..n], [actions[n]]);
    AfterOne(before[n], actions[n]);
    assert actions == actions[..n] + [actions[n]];
  }

  /** The expiry job alone can do with one overlap: an acceptance that approved itself for
      one team is widened while the job holds it, and expires without any review. */
  lemma ExpiresUnreviewed(a: Acceptance, d: Deployment, c: Caller, now: int)
    requires a.status.Approved? && a.scope == OneTeam(d) && a.reviewedBy.None? && PastExpiry(a, now)
    requires !c.isSecTeam && c.hasNamespaces && c.id == a.createdBy
    ensures var widened := Decided(a, ByPut(ALL_TEAMS, None, [d], {}, c));
      && widened.Ok? && Accountable(a) && Accountable(widened.value)
      && !Accountable(Overlay(a, ExpiredBy(a, now), widened.value))
  {
    ScopesOfRun(d);
  }
}
