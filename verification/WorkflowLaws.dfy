/** Who may do what to remediations and risk acceptances, and what exactly it changes
    (services/remediation_service.py, services/risk_acceptance_service.py and their routers). */
module WorkflowLaws {
  import opened Wrappers
  import opened Text
  import opened Ordering
  import opened Pairs
  import S = Scopes
  import R = Remediations
  import A = Acceptances

  // ----- remediations: an edit -----

  function Null(s: Option<string>): Option<string> {
    match s
    case Some(x) => if |x| == 0 then None else s
    case None => None
  }

  /** Back to an active status from one that was not. */
  predicate Reopens(r: R.Row, p: R.Patch) {
    (p.status == Some(R.Open) || p.status == Some(R.InProgress)) && r.status != R.Open && r.status != R.InProgress
  }

  /** Blank notes are removed. */
  function NotesLeft(notes: Option<string>, f: R.Field<string>): Option<string> {
    if f.Omitted? then notes else if f.value.Some? && |Strip(f.value.value)| > 0 then f.value else None
  }

  /** Every column an accepted edit leaves. */
  lemma EditWrites(r: R.Row, p: R.Patch, users: set<string>, c: R.Caller)
    requires R.Update(r, p, users, c).Ok?
    ensures var u := R.Update(r, p, users, c).value;
      && u.cveId == r.cveId && u.pair == r.pair && u.createdBy == r.createdBy
      && u.status == (if p.status.Some? then p.status.value else r.status)
      && u.assignedTo == (if p.assignedTo.Sent? then Null(p.assignedTo.value) else r.assignedTo)
      && u.targetDate == (if p.targetDate.Sent? then p.targetDate.value else r.targetDate)
      && u.notes == NotesLeft(r.notes, p.notes)
      && u.wontFixReason ==
         (if p.status == Some(R.WontFix) then p.wontFixReason else if Reopens(r, p) then None else r.wontFixReason)
      && u.resolvedAt ==
         (if p.status == Some(R.Resolved) then Some(c.now) else if Reopens(r, p) then None else r.resolvedAt)
      && u.resolvedBy ==
         (if p.status == Some(R.Resolved) then Some(c.id) else if Reopens(r, p) then None else r.resolvedBy)
      && u.verifiedAt == (if Reopens(r, p) then None else r.verifiedAt)
  {
    if p.status.Some? {
      StatusWrites(r, p, c);
    }
    var r1, r2, r3 := FieldsWrite(r, p, users, c);
  }

  lemma StatusWrites(r: R.Row, p: R.Patch, c: R.Caller)
    requires p.status.Some? && R.ApplyStatus(r, p.status.value, p.wontFixReason, c).Ok?
    ensures R.ApplyStatus(r, p.status.value, p.wontFixReason, c).value ==
            r.(status := p.status.value,
               wontFixReason :=
                 if p.status == Some(R.WontFix) then p.wontFixReason
                 else if Reopens(r, p) then None else r.wontFixReason,
               resolvedAt :=
                 if p.status == Some(R.Resolved) then Some(c.now) else if Reopens(r, p) then None else r.resolvedAt,
               resolvedBy :=
                 if p.status == Some(R.Resolved) then Some(c.id) else if Reopens(r, p) then None else r.resolvedBy,
               verifiedAt := if Reopens(r, p) then None else r.verifiedAt)
  {
  }

  /** The edit, one field after the other. */
  lemma FieldsWrite(r: R.Row, p: R.Patch, users: set<string>, c: R.Caller) returns (r1: R.Row, r2: R.Row, r3: R.Row)
    requires R.Update(r, p, users, c).Ok?
    ensures if p.status.Some? then R.ApplyStatus(r, p.status.value, p.wontFixReason, c) == Ok(r1) else r1 == r
    ensures r2 == r1.(assignedTo := if p.assignedTo.Sent? then Null(p.assignedTo.value) else r1.assignedTo)
    ensures r3 == r2.(targetDate := if p.targetDate.Sent? then p.targetDate.value else r2.targetDate)
    ensures R.Update(r, p, users, c) == Ok(r3.(notes := NotesLeft(r3.notes, p.notes)))
  {
    r1 := if p.status.Some? then R.ApplyStatus(r, p.status.value, p.wontFixReason, c).value else r;
    r2 := R.ApplyAssignee(r1, p.assignedTo, users).value;
    r3 := R.ApplyTargetDate(r2, p.targetDate, c.today).value;
    AssigneeWrites(r1, p.assignedTo, users);
    TargetDateWrites(r2, p.targetDate, c.today);
    NotesWrite(r3, p.notes);
  }

  lemma NotesWrite(r: R.Row, f: R.Field<string>)
    ensures R.ApplyNotes(r, f) == r.(notes := NotesLeft(r.notes, f))
  {
  }

  lemma AssigneeWrites(r: R.Row, f: R.Field<string>, users: set<string>)
    ensures var s := R.ApplyAssignee(r, f, users);
      s.Ok? ==> s.value == r.(assignedTo := if f.Sent? then Null(f.value) else r.assignedTo)
  {
  }

  lemma TargetDateWrites(r: R.Row, f: R.Field<int>, today: int)
    ensures var s := R.ApplyTargetDate(r, f, today);
      s.Ok? ==> s.value == r.(targetDate := if f.Sent? then f.value else r.targetDate)
  {
  }

  /** The allowed changes of status. */
  predicate Allowed(a: R.Status, b: R.Status) {
    || (a == R.Open && (b == R.InProgress || b == R.WontFix))
    || (a == R.InProgress && (b == R.Resolved || b == R.WontFix || b == R.Open))
    || ((a == R.Resolved || a == R.Verified) && b == R.InProgress)
    || (a == R.WontFix && b == R.Open)
  }

  predicate Active(s: R.Status) {
    s == R.Open || s == R.InProgress
  }

  /** An edit is accepted exactly when it asks for an allowed change with a reason where one is
      needed, edits fields only of a row that is or becomes active, names a known user, and
      sets no new date in the past. */
  lemma EditIff(r: R.Row, p: R.Patch, users: set<string>, c: R.Caller)
    ensures R.Update(r, p, users, c).Ok? <==>
      && (p.assignedTo.Sent? || p.targetDate.Sent? || p.notes.Sent? ==>
            Active(r.status) || (p.status.Some? && Active(p.status.value)))
      && (p.status.Some? ==> Allowed(r.status, p.status.value))
      && (p.status == Some(R.WontFix) ==> Null(p.wontFixReason).Some?)
      && (p.assignedTo.Sent? && Null(p.assignedTo.value).Some? && Null(p.assignedTo.value) != r.assignedTo ==>
            Null(p.assignedTo.value).value in users)
      && (p.targetDate.Sent? && p.targetDate.value.Some? && p.targetDate.value != r.targetDate ==>
            p.targetDate.value.value >= c.today)
  {
  }

  // ----- remediations: the store -----

  /** A caller sees a location. */
  predicate Sees(c: R.Caller, p: Pair) {
    c.seesAll || p in c.namespaces
  }

  /** The requests that change the store, apart from the nightly job. */
  lemma RequestIff(s: R.Store, op: R.Op)
    requires R.StoreOk(s) && !op.DoAutoResolve?
    ensures R.Attempt(s, op).Ok? <==>
      match op
      case DoCreate(r, affected, seen, users, c) =>
        && (forall p :: p in r.targets ==> Sees(c, p) && p in affected && R.Key(r.cveId, p) !in seen)
        && (Null(r.assignedTo).Some? ==> Null(r.assignedTo).value in users)
        && forall p, id :: p in r.targets && id in s.rows ==> !(s.rows[id].cveId == r.cveId && s.rows[id].pair == p)
      case DoPatch(id, p, users, c) =>
        id in s.rows && Sees(c, s.rows[id].pair) && R.Update(s.rows[id], p, users, c).Ok?
      case DoDelete(id, c) =>
        && id in s.rows && (c.isSecTeam || s.rows[id].createdBy == c.id)
        && (s.rows[id].status == R.Open || s.rows[id].status == R.WontFix)
      case _ => true
  {
    if op.DoCreate? {
      CreateIff(s, op.creation, op.affected, op.seen, op.users, op.caller);
    }
  }

  lemma CreateIff(
    s: R.Store, r: R.Creation, affected: set<Pair>, seen: set<R.Key>, users: set<string>, c: R.Caller)
    ensures R.Create(s, r, affected, seen, users, c).Ok? <==>
      && (forall p :: p in r.targets ==> Sees(c, p) && p in affected && R.Key(r.cveId, p) !in seen)
      && (Null(r.assignedTo).Some? ==> Null(r.assignedTo).value in users)
      && forall p, id :: p in r.targets && id in s.rows ==> !(s.rows[id].cveId == r.cveId && s.rows[id].pair == p)
  {
    var pairs := Dedup(r.targets);
    forall p ensures R.Key(r.cveId, p) in R.KeysIn(s) <==>
                     exists id :: id in s.rows && s.rows[id].cveId == r.cveId && s.rows[id].pair == p
    {
      KeyIsStored(s, r.cveId, p);
    }
  }

  lemma KeyIsStored(s: R.Store, cveId: string, p: Pair)
    ensures R.Key(cveId, p) in R.KeysIn(s) <==>
            exists id :: id in s.rows && s.rows[id].cveId == cveId && s.rows[id].pair == p
  {
    if id :| id in s.rows && s.rows[id].cveId == cveId && s.rows[id].pair == p {
      assert R.KeyOf(s.rows[id]) == R.Key(cveId, p);
    }
  }

  /** A new row is open, about one of the targets, with what the request said. */
  lemma {:induction false} NewRowsAre(s: R.Store, r: R.Creation, pairs: seq<Pair>, c: R.Caller, id: nat)
    requires (forall i :: i in s.rows ==> i < s.next)
    ensures var t := R.Added(s, r, pairs, c);
      && t.next == s.next + |pairs|
      && (id in s.rows ==> id in t.rows && t.rows[id] == s.rows[id])
      && (id in t.rows && id !in s.rows <==> s.next <= id < s.next + |pairs|)
      && (s.next <= id < s.next + |pairs| ==>
            var n := t.rows[id];
            && n.cveId == r.cveId && n.pair == pairs[id - s.next] && n.status == R.Open && n.createdBy == c.id
            && n.assignedTo == Null(r.assignedTo) && n.targetDate == r.targetDate
            && n.resolvedAt == None && n.resolvedBy == None && n.verifiedAt == None && n.wontFixReason == None)
    decreases |pairs|
  {
    if pairs != [] {
      NewRowsAre(s, r, pairs[..|pairs| - 1], c, id);
    }
  }

  /** The nightly job resolves exactly the active rows whose CVE is gone, without a resolver,
      and appends its note. */
  lemma JobResolves(s: R.Store, gone: set<R.Key>, now: int, note: string, id: nat)
    requires id in s.rows
    ensures var t, r := R.Commit(s, R.DoAutoResolve(gone, now, note)), s.rows[id];
      && id in t.rows && t.rows.Keys == s.rows.Keys && t.next == s.next
      && t.rows[id] ==
         if Active(r.status) && R.Key(r.cveId, r.pair) in gone then
           r.(status := R.Resolved, resolvedAt := Some(now),
              notes := Some(match r.notes case Some(x) => x + note case None => note))
         else r
  {
    assert "" + note == note;
  }

  // ----- acceptances: scopes -----

  /** The last affected deployment with the id. */
  ghost predicate IsLastWithId(deployments: seq<S.Deployment>, id: string, d: S.Deployment) {
    exists i :: 0 <= i < |deployments| && deployments[i] == d && d.id == id
      && forall j :: i < j < |deployments| ==> deployments[j].id != id
  }

  lemma {:induction false} ByIdIsLast(deployments: seq<S.Deployment>, id: string, d: S.Deployment)
    ensures S.ById(deployments, id) == Some(d) <==> IsLastWithId(deployments, id, d)
    decreases |deployments|
  {
    if deployments != [] {
      var n := |deployments| - 1;
      ByIdIsLast(deployments[..n], id, d);
      if deployments[n].id == id {
        if d == deployments[n] {
          assert deployments[n] == d;
        }
        if IsLastWithId(deployments, id, d) {
          var i :| 0 <= i < |deployments| && deployments[i] == d && d.id == id
            && forall j :: i < j < |deployments| ==> deployments[j].id != id;
          assert i == n;
        }
      } else {
        LastOfPrefix(deployments, id, d);
      }
    }
  }

  lemma LastOfPrefix(deployments: seq<S.Deployment>, id: string, d: S.Deployment)
    requires deployments != [] && deployments[|deployments| - 1].id != id
    ensures IsLastWithId(deployments, id, d) <==> IsLastWithId(deployments[..|deployments| - 1], id, d)
  {
    var n := |deployments| - 1;
    var before := deployments[..n];
    assert forall j :: 0 <= j < n ==> before[j] == deployments[j];
    if IsLastWithId(deployments, id, d) {
      var i :| 0 <= i < |deployments| && deployments[i] == d && d.id == id
        && forall j :: i < j < |deployments| ==> deployments[j].id != id;
      assert before[i] == d;
    }
    if IsLastWithId(before, id, d) {
      var i :| 0 <= i < n && before[i] == d && d.id == id && forall j :: i < j < n ==> before[j].id != id;
      assert deployments[i] == d;
    }
  }

  /** The target names something the CVE affects. */
  ghost predicate IsAffected(mode: S.Mode, t: S.Target, deployments: seq<S.Deployment>) {
    match mode
    case Everything => true
    case Namespaces => exists d :: d in deployments && d.pair == t.pair
    case Images =>
      && t.image.Some? && t.image.value != ""
      && exists d :: d in deployments && d.pair == t.pair && d.image == t.image.value
    case Deployments =>
      && t.deploymentId.Some? && t.deploymentId.value != ""
      && exists d :: IsLastWithId(deployments, t.deploymentId.value, d)
           && d.pair.cluster != "" && d.pair.namespace != "" && d.image != ""
  }

  /** A scope is accepted exactly when every target names something the CVE affects. */
  lemma ScopeAcceptedIff(s: S.Scope, deployments: seq<S.Deployment>)
    ensures S.Normalize(s, deployments).Ok? <==> forall t :: t in s.targets ==> IsAffected(s.mode, t, deployments)
  {
    S.NoRefusal(s.mode, s.targets, deployments);
    forall t ensures S.Refusal(s.mode, t, deployments).None? <==> IsAffected(s.mode, t, deployments) {
      TargetAcceptedIff(s.mode, t, deployments);
    }
  }

  lemma TargetAcceptedIff(mode: S.Mode, t: S.Target, deployments: seq<S.Deployment>)
    ensures S.Refusal(mode, t, deployments).None? <==> IsAffected(mode, t, deployments)
  {
    if mode.Deployments? && t.deploymentId.Some? {
      forall d ensures S.ById(deployments, t.deploymentId.value) == Some(d) <==>
                       IsLastWithId(deployments, t.deploymentId.value, d)
      {
        ByIdIsLast(deployments, t.deploymentId.value, d);
      }
    }
  }

  /** Why a target that names nothing is refused. */
  ghost function ReasonFor(mode: S.Mode, t: S.Target, deployments: seq<S.Deployment>): S.Error {
    if mode.Images? then
      if t.image.None? || t.image.value == "" then S.ImageRequiresName else S.ImagesWithoutCve
    else if mode.Deployments? then
      if t.deploymentId.None? || t.deploymentId.value == "" then S.DeploymentRequiresId
      else if forall d :: d in deployments ==> d.id != t.deploymentId.value then S.DeploymentsWithoutCve
      else S.InvalidTarget
    else S.NamespacesWithoutCve
  }

  lemma RefusalIs(mode: S.Mode, t: S.Target, deployments: seq<S.Deployment>)
    ensures S.Refusal(mode, t, deployments) ==
            if IsAffected(mode, t, deployments) then None else Some(ReasonFor(mode, t, deployments))
  {
    TargetAcceptedIff(mode, t, deployments);
    if mode.Deployments? && t.deploymentId.Some? {
      NoneWithId(deployments, t.deploymentId.value);
    }
  }

  lemma {:induction false} NoneWithId(deployments: seq<S.Deployment>, id: string)
    ensures S.ById(deployments, id).None? <==> forall d :: d in deployments ==> d.id != id
    decreases |deployments|
  {
    if |deployments| > 0 {
      var n := |deployments| - 1;
      NoneWithId(deployments[..n], id);
      assert deployments == deployments[..n] + [deployments[n]];
    }
  }

  /** The first target that names nothing decides the error. */
  lemma {:induction false} FirstRefusedIs(
    mode: S.Mode, targets: seq<S.Target>, deployments: seq<S.Deployment>, i: nat)
    requires i < |targets| && !IsAffected(mode, targets[i], deployments)
    requires forall j :: 0 <= j < i ==> IsAffected(mode, targets[j], deployments)
    ensures S.FirstRefusal(mode, targets, deployments) == Some(ReasonFor(mode, targets[i], deployments))
  {
    RefusalIs(mode, targets[0], deployments);
    if i > 0 {
      assert IsAffected(mode, targets[0], deployments);
      FirstRefusedIs(mode, targets[1..], deployments, i - 1);
    }
  }

  lemma RefusedIs(s: S.Scope, deployments: seq<S.Deployment>, i: nat)
    requires i < |s.targets| && !IsAffected(s.mode, s.targets[i], deployments)
    requires forall j :: 0 <= j < i ==> IsAffected(s.mode, s.targets[j], deployments)
    ensures S.Normalize(s, deployments) == Err(ReasonFor(s.mode, s.targets[i], deployments))
  {
    FirstRefusedIs(s.mode, s.targets, deployments, i);
  }

  /** `u` is what is stored for `t`: only what the mode needs, the rest from the deployment. */
  ghost predicate StandsFor(mode: S.Mode, t: S.Target, deployments: seq<S.Deployment>, u: S.Target) {
    match mode
    case Everything => u == t
    case Namespaces => u == S.Target(t.pair, None, None)
    case Images => u == S.Target(t.pair, t.image, None)
    case Deployments =>
      && t.deploymentId.Some?
      && exists d :: IsLastWithId(deployments, t.deploymentId.value, d)
           && u == S.Target(d.pair, Some(d.image), Some(d.id))
  }

  lemma StoredStands(mode: S.Mode, t: S.Target, deployments: seq<S.Deployment>, u: S.Target)
    requires IsAffected(mode, t, deployments)
    ensures u == S.Stored(mode, t, deployments) <==> StandsFor(mode, t, deployments, u)
  {
    if mode.Deployments? {
      var id := t.deploymentId.value;
      forall d ensures S.ById(deployments, id) == Some(d) <==> IsLastWithId(deployments, id, d) {
        ByIdIsLast(deployments, id, d);
      }
    }
  }

  /** An accepted scope keeps its mode and stores exactly what stands for its targets, once
      each, by cluster and namespace, and then by deployment id or image. */
  lemma AcceptedIs(s: S.Scope, deployments: seq<S.Deployment>, u: S.Target, i: nat, j: nat)
    requires S.WellFormed(s) && S.Normalize(s, deployments).Ok?
    ensures var n := S.Normalize(s, deployments).value;
      && n.mode == s.mode
      && (u in n.targets <==> exists t :: t in s.targets && StandsFor(s.mode, t, deployments, u))
      && (i < j < |n.targets| ==>
            var x, y := n.targets[i], n.targets[j];
            && x != y && ByCluster(x.pair, y.pair)
            && (x.pair == y.pair && s.mode.Deployments? && x.deploymentId.Some? && y.deploymentId.Some? ==>
                  StrLe(x.deploymentId.value, y.deploymentId.value))
            && (x.pair == y.pair && s.mode.Images? && x.image.Some? && y.image.Some? ==>
                  StrLe(x.image.value, y.image.value)))
  {
    ScopeAcceptedIff(s, deployments);
    S.NormalizedTargets(s, deployments);
    forall t | t in s.targets
      ensures u == S.Stored(s.mode, t, deployments) <==> StandsFor(s.mode, t, deployments, u)
    {
      StoredStands(s.mode, t, deployments, u);
    }
    var targets := S.Normalize(s, deployments).value.targets;
    if i < j < |targets| {
      assert S.TargetLe(s.mode, targets[i], targets[j]);
      StoredInOrder(s.mode, targets[i], targets[j]);
    }
  }

  lemma StoredInOrder(mode: S.Mode, x: S.Target, y: S.Target)
    requires S.TargetLe(mode, x, y)
    ensures ByCluster(x.pair, y.pair)
  {
    StrLeOrder();
  }

  /** A scope belongs to one team iff it has targets, all in one namespace of one cluster. */
  lemma SingleTeamIff(s: S.Scope)
    ensures S.IsSingleTeam(s) <==>
            && !s.mode.Everything? && s.targets != []
            && forall t, u :: t in s.targets && u in s.targets ==> t.pair == u.pair
  {
    var pairs := set t | t in s.targets :: t.pair;
    if S.IsSingleTeam(s) {
      var pair := S.SingleTeamPair(s);
      assert s.targets == [] ==> pairs == {};
    }
    if s.targets != [] && forall t, u :: t in s.targets && u in s.targets ==> t.pair == u.pair {
      assert s.targets[0] in s.targets && pairs == {s.targets[0].pair};
    }
  }

  // ----- acceptances: who changes what -----

  /** What a committed step does to a row: nothing, or what its owner, the security team or
      the expiry job may do. */
  ghost predicate RowChange(a: A.Acceptance, b: A.Acceptance, id: nat, op: A.Op) {
    || b == a
    || (op.Modify? && op.id == id && !op.caller.isSecTeam && op.caller.id == a.createdBy && op.caller.hasNamespaces
        && op.deployments != [] && (a.status == A.Approved || a.status == A.Rejected)
        && S.Normalize(op.body, op.deployments) == Ok(b.scope)
        && b.status == (if S.IsSingleTeam(b.scope) then A.Approved else A.Requested) && b.reviewedBy == None
        && b.expiresAt == op.expiresAt && b.cveId == a.cveId && b.createdBy == a.createdBy)
    || (op.Review? && op.id == id && op.caller.isSecTeam && a.status == A.Requested
        && b == a.(status := if op.approved then A.Approved else A.Rejected, reviewedBy := Some(op.caller.id)))
    || (op.ExpireAll? && a.status == A.Approved && a.expiresAt.Some? && a.expiresAt.value < op.now
        && b == a.(status := A.Expired))
  }

  /** Rows change, appear and disappear only so. */
  lemma AcceptanceStep(t: A.Table, op: A.Op, id: nat)
    requires forall i :: i in t.rows ==> i < t.next
    ensures var u := A.Step(t, op);
      && (id in t.rows && id in u.rows ==> RowChange(t.rows[id], u.rows[id], id, op))
      && (id in t.rows && id !in u.rows ==>
            op.Cancel? && op.id == id && (op.caller.isSecTeam || op.caller.id == t.rows[id].createdBy))
      && (id !in t.rows && id in u.rows ==>
            && op.Create? && id == t.next && !op.caller.isSecTeam && op.caller.hasNamespaces && op.deployments != []
            && var b := u.rows[id];
               && S.Normalize(op.body, op.deployments) == Ok(b.scope)
               && b.status == (if S.IsSingleTeam(b.scope) then A.Approved else A.Requested)
               && b.cveId == op.cveId && b.createdBy == op.caller.id && b.reviewedBy == None
               && b.expiresAt == op.expiresAt)
  {
  }

  /** A request is handled, up to the index, exactly under these conditions. */
  lemma HandledIff(t: A.Table, op: A.Op)
    ensures A.Handle(t, op).Ok? <==>
      match op
      case Create(cveId, body, _, deployments, seen, c) =>
        && !c.isSecTeam && c.hasNamespaces && deployments != [] && S.Normalize(body, deployments).Ok?
        && A.ActiveKey(cveId, S.Normalize(body, deployments).value) !in seen
      case Modify(id, body, _, deployments, seen, c) =>
        && !c.isSecTeam && id in t.rows && t.rows[id].createdBy == c.id
        && (t.rows[id].status == A.Approved || t.rows[id].status == A.Rejected)
        && c.hasNamespaces && deployments != [] && S.Normalize(body, deployments).Ok?
        && var scope := S.Normalize(body, deployments).value;
           scope == t.rows[id].scope || A.ActiveKey(t.rows[id].cveId, scope) !in seen
      case Review(id, _, c) => c.isSecTeam && id in t.rows && t.rows[id].status == A.Requested
      case Cancel(id, c) => id in t.rows && (c.isSecTeam || t.rows[id].createdBy == c.id)
      case ExpireAll(_) => true
  {
  }

  predicate IsOverdue(a: A.Acceptance, now: int) {
    a.status == A.Approved && a.expiresAt.Some? && a.expiresAt.value < now
  }

  /** What a handled and committed request does. */
  lemma HandledDoes(t: A.Table, op: A.Op)
    requires A.Handle(t, op).Ok? && A.IndexHolds(A.Handle(t, op).value)
    ensures var u := A.Step(t, op);
      match op
      case Create(_, _, _, _, _, _) => u.next == t.next + 1 && u.rows.Keys == t.rows.Keys + {t.next}
      case Modify(id, _, expiresAt, _, _, _) =>
        && u.next == t.next && u.rows.Keys == t.rows.Keys
        && u.rows[id].expiresAt == expiresAt && u.rows[id].reviewedBy == None
      case Review(id, approved, c) =>
        var status := if approved then A.Approved else A.Rejected;
        u.rows == t.rows[id := t.rows[id].(status := status, reviewedBy := Some(c.id))]
      case Cancel(id, _) => u.rows == t.rows - {id} && u.next == t.next
      case ExpireAll(now) =>
        && u.rows.Keys == t.rows.Keys
        && forall id :: id in t.rows && IsOverdue(t.rows[id], now) ==> u.rows[id].status == A.Expired
  {
  }

  /** Requested and approved acceptances are the active ones. */
  lemma ActiveIff(a: A.Acceptance)
    ensures A.Active(a) <==> a.status == A.Requested || a.status == A.Approved
  {
  }
}
