/** The life of risk acceptances (routers/risk_acceptances.py and the expiry job of
    tasks/scheduler.py) over the table and its partial unique index.

    The scope key is an injective digest of the normalised scope, so the scope itself
    stands for it. */
module Acceptances {
  import opened Wrappers
  import opened Scopes

  datatype Status = Requested | Approved | Rejected | Expired

  datatype Acceptance = Acceptance(
    cveId: string, status: Status, scope: Scope, createdBy: string, reviewedBy: Option<string>, expiresAt: Option<int>)

  datatype Caller = Caller(id: string, isSecTeam: bool, hasNamespaces: bool)

  datatype Refused =
    | Forbidden | NoNamespaces | NotFound | CveNotInNamespaces | BadScope(error: Scopes.Error) | DuplicateScope
    | NotModifiable | NotReviewable | IndexViolation

  /** Committed rows by id, and the next unused id. */
  datatype Table = Table(rows: map<nat, Acceptance>, next: nat)

  predicate Active(a: Acceptance) {
    a.status.Requested? || a.status.Approved?
  }

  datatype ActiveKey = ActiveKey(cveId: string, scope: Scope)

  function ActiveKeyOf(a: Acceptance): ActiveKey {
    ActiveKey(a.cveId, a.scope)
  }

  function ActiveKeys(t: Table): set<ActiveKey> {
    set id | id in t.rows && Active(t.rows[id]) :: ActiveKeyOf(t.rows[id])
  }

  /** `uq_risk_acceptances_active_scope` */
  ghost predicate IndexHolds(t: Table) {
    IndexOn(t.rows)
  }

  ghost predicate IndexOn(rows: map<nat, Acceptance>) {
    forall i, j :: Clash(rows, i, j) ==> i == j
  }

  /** Both rows exist, are active and have the same key. */
  predicate Clash(rows: map<nat, Acceptance>, i: nat, j: nat) {
    i in rows && j in rows && Active(rows[i]) && Active(rows[j]) && ActiveKeyOf(rows[i]) == ActiveKeyOf(rows[j])
  }

  /** Single-team scopes approve themselves. */
  function StatusFor(scope: Scope): Status {
    if IsSingleTeam(scope) then Approved else Requested
  }

  datatype Op =
    | Create(
        cveId: string, body: Scope, expiresAt: Option<int>, deployments: seq<Deployment>, seen: set<ActiveKey>,
        caller: Caller)
    | Modify(
        id: nat, body: Scope, expiresAt: Option<int>, deployments: seq<Deployment>, seen: set<ActiveKey>,
        caller: Caller)
    | Review(id: nat, approved: bool, caller: Caller)
    | Cancel(id: nat, caller: Caller)
    | ExpireAll(now: int)

  /** The handlers up to their commit. `deployments` are the affected ones the caller can
      see; `seen` are the active keys the duplicate check saw. */
  function Handle(t: Table, op: Op): Result<Table, Refused> {
    match op
    case Create(cveId, body, expiresAt, deployments, seen, c) =>
      if c.isSecTeam then Err(Forbidden)
      else if !c.hasNamespaces then Err(NoNamespaces)
      else if deployments == [] then Err(CveNotInNamespaces)
      else (match Normalize(body, deployments)
        case Err(e) => Err(BadScope(e))
        case Ok(scope) =>
          if ActiveKey(cveId, scope) in seen then Err(DuplicateScope)
          else
            var created := Acceptance(cveId, StatusFor(scope), scope, c.id, None, expiresAt);
            Ok(Table(t.rows[t.next := created], t.next + 1)))
    case Modify(id, body, expiresAt, deployments, seen, c) =>
      if c.isSecTeam then Err(Forbidden)
      else if id !in t.rows then Err(NotFound)
      else if t.rows[id].createdBy != c.id then Err(Forbidden)
      else if !t.rows[id].status.Approved? && !t.rows[id].status.Rejected? then Err(NotModifiable)
      else if !c.hasNamespaces then Err(NoNamespaces)
      else if deployments == [] then Err(CveNotInNamespaces)
      else (match Normalize(body, deployments)
        case Err(e) => Err(BadScope(e))
        case Ok(scope) =>
          var a := t.rows[id];
          if scope != a.scope && ActiveKey(a.cveId, scope) in seen then Err(DuplicateScope)
          else Ok(t.(rows := t.rows[id := Acceptance(a.cveId, StatusFor(scope), scope, a.createdBy, None, expiresAt)])))
    case Review(id, approved, c) =>
      if !c.isSecTeam then Err(Forbidden)
      else if id !in t.rows then Err(NotFound)
      else if !t.rows[id].status.Requested? then Err(NotReviewable)
      else
        var status := if approved then Approved else Rejected;
        Ok(t.(rows := t.rows[id := t.rows[id].(status := status, reviewedBy := Some(c.id))]))
    case Cancel(id, c) =>
      if id !in t.rows then Err(NotFound)
      else if !c.isSecTeam && t.rows[id].createdBy != c.id then Err(Forbidden)
      else Ok(t.(rows := t.rows - {id}))
    case ExpireAll(now) => Ok(t.(rows := map id | id in t.rows :: ExpiredBy(t.rows[id], now)))
  }

  predicate PastExpiry(a: Acceptance, now: int) {
    a.status.Approved? && a.expiresAt.Some? && a.expiresAt.value < now
  }

  function ExpiredBy(a: Acceptance, now: int): Acceptance {
    if PastExpiry(a, now) then a.(status := Expired) else a
  }

  /** Bodies passed the request schema. */
  predicate BodyOk(op: Op) {
    (op.Create? || op.Modify?) ==> WellFormed(op.body)
  }

  /** The commit checks the index; a violation rolls back. */
  ghost function Commit(t: Table, op: Op): Result<Table, Refused> {
    match Handle(t, op)
    case Err(e) => Err(e)
    case Ok(u) => if IndexHolds(u) then Ok(u) else Err(IndexViolation)
  }

  ghost function Step(t: Table, op: Op): Table {
    match Commit(t, op) case Ok(u) => u case Err(_) => t
  }

  /** The handlers over the committed table. */
  class AcceptanceTable {
    var rows: map<nat, Acceptance>
    var next: nat

    function Contents(): Table
      reads this
    {
      Table(rows, next)
    }

    constructor ()
      ensures Contents() == Table(map[], 0)
    {
      rows, next := map[], 0;
    }

    /** POST: create under the next id, unless a check or the index refuses. */
    method CreateAcceptance(
      cveId: string, body: Scope, expiresAt: Option<int>, deployments: seq<Deployment>, seen: set<ActiveKey>, c: Caller)
      returns (refused: Option<Refused>)
      requires WellFormed(body) && TableOk(Contents())
      modifies this
      ensures Commit(old(Contents()), Create(cveId, body, expiresAt, deployments, seen, c)) ==
              match refused case None => Ok(Contents()) case Some(e) => Err(e)
      ensures refused.Some? ==> Contents() == old(Contents())
    {
      if c.isSecTeam {
        return Some(Forbidden);
      }
      if !c.hasNamespaces {
        return Some(NoNamespaces);
      }
      if deployments == [] {
        return Some(CveNotInNamespaces);
      }
      var normalized := ValidateAndResolve(body, deployments);
      if normalized.Err? {
        return Some(BadScope(normalized.error));
      }
      var scope := normalized.value;
      if ActiveKey(cveId, scope) in seen {
        return Some(DuplicateScope);
      }
      IndexAfterPut(Contents(), next, Acceptance(cveId, StatusFor(scope), scope, c.id, None, expiresAt));
      if ActiveKey(cveId, scope) in ActiveKeys(Contents()) {
        return Some(IndexViolation);
      }
      rows := rows[next := Acceptance(cveId, StatusFor(scope), scope, c.id, None, expiresAt)];
      next := next + 1;
      return None;
    }

    /** PUT: the creator changes an approved or rejected acceptance, which starts over. */
    method ModifyAcceptance(
      id: nat, body: Scope, expiresAt: Option<int>, deployments: seq<Deployment>, seen: set<ActiveKey>, c: Caller)
      returns (refused: Option<Refused>)
      requires WellFormed(body) && TableOk(Contents())
      modifies this`rows
      ensures Commit(old(Contents()), Modify(id, body, expiresAt, deployments, seen, c)) ==
              match refused case None => Ok(Contents()) case Some(e) => Err(e)
      ensures refused.Some? ==> Contents() == old(Contents())
    {
      if c.isSecTeam {
        return Some(Forbidden);
      }
      if id !in rows {
        return Some(NotFound);
      }
      var a := rows[id];
      if a.createdBy != c.id {
        return Some(Forbidden);
      }
      if !a.status.Approved? && !a.status.Rejected? {
        return Some(NotModifiable);
      }
      if !c.hasNamespaces {
        return Some(NoNamespaces);
      }
      if deployments == [] {
        return Some(CveNotInNamespaces);
      }
      var normalized := ValidateAndResolve(body, deployments);
      if normalized.Err? {
        return Some(BadScope(normalized.error));
      }
      var scope := normalized.value;
      if scope != a.scope && ActiveKey(a.cveId, scope) in seen {
        return Some(DuplicateScope);
      }
      var b := Acceptance(a.cveId, StatusFor(scope), scope, a.createdBy, None, expiresAt);
      IndexAfterPut(Contents(), id, b);
      var others := Table(rows - {id}, next);
      if ActiveKeyOf(b) in ActiveKeys(others) {
        return Some(IndexViolation);
      }
      rows := rows[id := b];
      return None;
    }

    /** PATCH: the security team decides a requested acceptance. */
    method ReviewAcceptance(id: nat, approved: bool, c: Caller) returns (refused: Option<Refused>)
      requires TableOk(Contents())
      modifies this`rows
      ensures Commit(old(Contents()), Review(id, approved, c)) ==
              match refused case None => Ok(Contents()) case Some(e) => Err(e)
      ensures refused.Some? ==> Contents() == old(Contents())
    {
      if !c.isSecTeam {
        return Some(Forbidden);
      }
      if id !in rows {
        return Some(NotFound);
      }
      if !rows[id].status.Requested? {
        return Some(NotReviewable);
      }
      StepKeepsIndex(Contents(), Review(id, approved, c));
      rows := rows[id := rows[id].(status := if approved then Approved else Rejected, reviewedBy := Some(c.id))];
      return None;
    }

    method CancelAcceptance(id: nat, c: Caller) returns (refused: Option<Refused>)
      requires TableOk(Contents())
      modifies this`rows
      ensures Commit(old(Contents()), Cancel(id, c)) ==
              match refused case None => Ok(Contents()) case Some(e) => Err(e)
      ensures refused.Some? ==> Contents() == old(Contents())
    {
      if id !in rows {
        return Some(NotFound);
      }
      if !c.isSecTeam && rows[id].createdBy != c.id {
        return Some(Forbidden);
      }
      StepKeepsIndex(Contents(), Cancel(id, c));
      rows := rows - {id};
      return None;
    }

    /** `run_expiry_check` */
    method ExpireAcceptances(now: int)
      requires TableOk(Contents())
      modifies this`rows
      ensures Commit(old(Contents()), ExpireAll(now)) == Ok(Contents())
    {
      ghost var start := Contents();
      StepKeepsIndex(start, ExpireAll(now));
      var before := rows;
      var rest := before.Keys;
      while rest != {}
        invariant rest <= before.Keys && rows.Keys == before.Keys
        invariant forall id :: id in before ==>
                rows[id] == if id in rest then before[id] else ExpiredBy(before[id], now)
        decreases rest
      {
        var id :| id in rest;
        if PastExpiry(rows[id], now) {
          rows := rows[id := rows[id].(status := Expired)];
        }
        rest := rest - {id};
      }
      assert Handle(start, ExpireAll(now)).value.rows == rows;
    }
  }

  // ----- what every run keeps -----

  /** Approval without a reviewer only within one namespace; rejection always by someone. */
  predicate Accountable(a: Acceptance) {
    match a.status
    case Requested => true
    case Approved => a.reviewedBy.Some? || IsSingleTeam(a.scope)
    case Rejected => a.reviewedBy.Some?
    case Expired => a.reviewedBy.Some? || IsSingleTeam(a.scope)
  }

  ghost predicate TableOk(t: Table) {
    IndexHolds(t) && forall id :: id in t.rows ==> id < t.next && Accountable(t.rows[id])
  }

  /** Putting a row keeps the index iff no other active row has its key. */
  lemma IndexAfterPut(t: Table, id: nat, a: Acceptance)
    requires IndexHolds(t) && Active(a)
    ensures var u := t.(rows := t.rows[id := a]);
      IndexHolds(u) <==> ActiveKeyOf(a) !in ActiveKeys(t.(rows := t.rows - {id}))
    ensures id !in t.rows ==> t.rows - {id} == t.rows
    ensures IndexHolds(t.(rows := t.rows[id := a])) <==> IndexHolds(Table(t.rows[id := a], t.next + 1))
  {
    var u := t.(rows := t.rows[id := a]);
    var others := t.(rows := t.rows - {id});
    if ActiveKeyOf(a) in ActiveKeys(others) {
      var j :| j in others.rows && Active(others.rows[j]) && ActiveKeyOf(others.rows[j]) == ActiveKeyOf(a);
      assert Clash(u.rows, id, j) && j != id;
    } else {
      assert forall k :: k in others.rows && Active(others.rows[k]) ==>
             ActiveKeyOf(others.rows[k]) in ActiveKeys(others);
      assert forall k :: k in u.rows && k != id ==> k in others.rows && others.rows[k] == u.rows[k];
      forall i, j | Clash(u.rows, i, j) ensures i == j {
        if i != id && j != id {
          assert Clash(t.rows, i, j);
        }
      }
    }
  }

  lemma StepKeepsTable(t: Table, op: Op)
    requires TableOk(t)
    ensures TableOk(Step(t, op))
  {
  }

  ghost function After(t: Table, ops: seq<Op>): Table {
    if ops == [] then t else Step(After(t, ops[..|ops| - 1]), ops[|ops| - 1])
  }

  /** From the empty table, along every run: at most one active acceptance per CVE and
      scope, approvals and rejections accounted for. */
  lemma {:induction false} RunsKeepTable(ops: seq<Op>)
    ensures TableOk(After(Table(map[], 0), ops))
  {
    if ops != [] {
      RunsKeepTable(ops[..|ops| - 1]);
      StepKeepsTable(After(Table(map[], 0), ops[..|ops| - 1]), ops[|ops| - 1]);
    }
  }

  // ----- when the handlers' own checks are not enough -----

  /** The duplicate check read the current table. */
  predicate FreshCheck(t: Table, op: Op) {
    (op.Create? || op.Modify?) ==> op.seen == ActiveKeys(t)
  }

  /** A rejected acceptance is modified without changing its scope, while another active
      one has that scope. */
  ghost predicate RevivesUnderTakenKey(t: Table, op: Op) {
    op.Modify? && op.id in t.rows && t.rows[op.id].status.Rejected?
    && Normalize(op.body, op.deployments) == Ok(t.rows[op.id].scope)
    && ActiveKeyOf(t.rows[op.id]) in ActiveKeys(t)
  }

  /** With a fresh duplicate check, the handlers let a violation through to the index in
      exactly that case. */
  lemma IndexNeededIff(t: Table, op: Op)
    requires TableOk(t) && BodyOk(op) && FreshCheck(t, op) && Handle(t, op).Ok?
    ensures Commit(t, op) == Err(IndexViolation) <==> RevivesUnderTakenKey(t, op)
  {
    match op
    case Create(cveId, body, expiresAt, deployments, seen, c) =>
      var scope := Normalize(body, deployments).value;
      IndexAfterPut(t, t.next, Acceptance(cveId, StatusFor(scope), scope, c.id, None, expiresAt));
      assert t.rows - {t.next} == t.rows;
    case Modify(id, body, expiresAt, deployments, seen, c) =>
      var a, scope := t.rows[id], Normalize(body, deployments).value;
      IndexAfterPut(t, id, Acceptance(a.cveId, StatusFor(scope), scope, a.createdBy, None, expiresAt));
      ModifiedKey(t, id, ActiveKey(a.cveId, scope));
    case _ =>
      StepKeepsIndex(t, op);
  }

  /** Whether another active row has the key of the modified one. */
  lemma ModifiedKey(t: Table, id: nat, key: ActiveKey)
    requires TableOk(t) && id in t.rows
    ensures var others := ActiveKeys(t.(rows := t.rows - {id}));
      && (key != ActiveKeyOf(t.rows[id]) ==> (key in others <==> key in ActiveKeys(t)))
      && (key == ActiveKeyOf(t.rows[id]) && Active(t.rows[id]) ==> key !in others)
      && (!Active(t.rows[id]) ==> (key in others <==> key in ActiveKeys(t)))
  {
    var rest := t.(rows := t.rows - {id});
    if key in ActiveKeys(t) {
      var j :| j in t.rows && Active(t.rows[j]) && ActiveKeyOf(t.rows[j]) == key;
      if j != id { assert rest.rows[j] == t.rows[j]; }
    }
    if key in ActiveKeys(rest) {
      var j :| j in rest.rows && Active(rest.rows[j]) && ActiveKeyOf(rest.rows[j]) == key;
      assert key == ActiveKeyOf(t.rows[id]) && Active(t.rows[id]) ==> Clash(t.rows, id, j);
    }
  }

  lemma StepKeepsIndex(t: Table, op: Op)
    requires IndexHolds(t) && (op.Review? || op.Cancel? || op.ExpireAll?) && Handle(t, op).Ok?
    ensures IndexHolds(Handle(t, op).value)
  {
    var u := Handle(t, op).value;
    forall i, j | Clash(u.rows, i, j) ensures i == j {
      assert Clash(t.rows, i, j);
    }
  }

  /** The case is reached: request for all namespaces, rejection, a second request for the
      same scope, then the first creator modifies the rejected one unchanged. */
  lemma IndexIsNeeded(cveId: string, d: Deployment, creator: Caller, reviewer: Caller)
    requires !creator.isSecTeam && creator.hasNamespaces && reviewer.isSecTeam
    ensures var all := Scope(Everything, []);
      var key := ActiveKey(cveId, all);
      var t := After(Table(map[], 0), [
        Create(cveId, all, None, [d], {}, creator),
        Review(0, false, reviewer),
        Create(cveId, all, None, [d], {}, creator)]);
      var op := Modify(0, all, None, [d], ActiveKeys(t), creator);
      FreshCheck(t, op) && Handle(t, op).Ok? && Commit(t, op) == Err(IndexViolation)
  {
    var all := Scope(Everything, []);
    var first := Create(cveId, all, None, [d], {}, creator);
    var review := Review(0, false, reviewer);
    var ops := [first, review, first];
    assert Normalize(all, [d]) == Ok(all);
    var requested := Acceptance(cveId, Requested, all, creator.id, None, None);
    var rejected := requested.(status := Rejected, reviewedBy := Some(reviewer.id));
    var t1 := Table(map[0 := requested], 1);
    var t2 := Table(map[0 := rejected], 1);
    var t3 := Table(map[0 := rejected, 1 := requested], 2);
    assert ops[..0] == [] && ops[..1][..0] == [] && ops[..2][..1] == ops[..1] && ops[..3] == ops;
    assert After(Table(map[], 0), ops[..1]) == t1;
    assert After(Table(map[], 0), ops[..2]) == t2;
    assert After(Table(map[], 0), ops) == t3;
    assert ActiveKeyOf(t3.rows[1]) in ActiveKeys(t3);
    IndexNeededIff(t3, Modify(0, all, None, [d], ActiveKeys(t3), creator));
  }
}
