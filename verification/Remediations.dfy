/** Remediations (services/remediation_service.py, routers/remediations.py and the
    auto-resolve job of tasks/scheduler.py): the status machine and its store. */
module Remediations {
  import opened Wrappers
  import opened Text
  import opened Ordering
  import opened Pairs

  datatype Status = Open | InProgress | Resolved | Verified | WontFix

  datatype Error =
    | Forbidden | NotFound | NotAffected | Duplicate | UserNotFound
    | NotEditable | InvalidTransition | ReasonRequired | DatePast | NotDeletable

  /** One remediation; dates and times are integers. */
  datatype Row = Row(
    cveId: string, pair: Pair, status: Status, createdBy: string, assignedTo: Option<string>,
    targetDate: Option<int>, notes: Option<string>, wontFixReason: Option<string>,
    resolvedAt: Option<int>, resolvedBy: Option<string>, verifiedAt: Option<int>)

  /** A PATCH field: omitted, or sent with a value or an explicit null. */
  datatype Field<T> = Omitted | Sent(value: Option<T>)

  datatype Patch = Patch(
    status: Option<Status>, assignedTo: Field<string>, targetDate: Field<int>, notes: Field<string>,
    wontFixReason: Option<string>)

  /** Who asks, and when. */
  datatype Caller = Caller(id: string, isSecTeam: bool, seesAll: bool, namespaces: set<Pair>, today: int, now: int)

  predicate CanSee(c: Caller, p: Pair) {
    c.seesAll || p in c.namespaces
  }

  function Transitions(s: Status): set<Status> {
    match s
    case Open => {InProgress, WontFix}
    case InProgress => {Resolved, WontFix, Open}
    case Resolved => {InProgress}
    case Verified => {InProgress}
    case WontFix => {Open}
  }

  predicate Editable(s: Status) {
    s.Open? || s.InProgress?
  }

  /** `x or None`: the empty string counts as null. */
  function OrNone(s: Option<string>): Option<string> {
    if s == Some("") then None else s
  }

  // ----- one PATCH -----

  function ApplyStatus(r: Row, new_: Status, reason: Option<string>, c: Caller): Result<Row, Error> {
    if new_ !in Transitions(r.status) then Err(InvalidTransition)
    else if new_.WontFix? && OrNone(reason).None? then Err(ReasonRequired)
    else match new_
      case Resolved => Ok(r.(status := new_, resolvedAt := Some(c.now), resolvedBy := Some(c.id)))
      case WontFix => Ok(r.(status := new_, wontFixReason := reason))
      case _ =>
        if Editable(r.status) then Ok(r.(status := new_))
        else Ok(r.(status := new_, resolvedAt := None, resolvedBy := None, verifiedAt := None, wontFixReason := None))
  }

  function ApplyAssignee(r: Row, f: Field<string>, users: set<string>): Result<Row, Error> {
    if f.Omitted? || OrNone(f.value) == r.assignedTo then Ok(r)
    else if OrNone(f.value).Some? && f.value.value !in users then Err(UserNotFound)
    else Ok(r.(assignedTo := OrNone(f.value)))
  }

  function ApplyTargetDate(r: Row, f: Field<int>, today: int): Result<Row, Error> {
    if f.Omitted? || f.value == r.targetDate then Ok(r)
    else if f.value.Some? && f.value.value < today then Err(DatePast)
    else Ok(r.(targetDate := f.value))
  }

  function ApplyNotes(r: Row, f: Field<string>): Row {
    if f.Omitted? then r
    else r.(notes := if f.value.Some? && Strip(f.value.value) != [] then f.value else None)
  }

  predicate SendsFields(p: Patch) {
    p.assignedTo.Sent? || p.targetDate.Sent? || p.notes.Sent?
  }

  predicate RequireEditable(current: Status, new_: Option<Status>) {
    Editable(current) || (new_.Some? && Editable(new_.value))
  }

  /** `update_remediation` */
  function Update(r: Row, p: Patch, users: set<string>, c: Caller): Result<Row, Error> {
    if SendsFields(p) && !RequireEditable(r.status, p.status) then Err(NotEditable)
    else
      match (if p.status.Some? then ApplyStatus(r, p.status.value, p.wontFixReason, c) else Ok(r))
      case Err(e) => Err(e)
      case Ok(r1) =>
        match ApplyAssignee(r1, p.assignedTo, users)
        case Err(e) => Err(e)
        case Ok(r2) =>
          match ApplyTargetDate(r2, p.targetDate, c.today)
          case Err(e) => Err(e)
          case Ok(r3) => Ok(ApplyNotes(r3, p.notes))
  }

  /** The loaded row that a handler edits in place before it commits. */
  class Remediation {
    var value: Row

    constructor (row: Row)
      ensures value == row
    {
      value := row;
    }

    /** `_apply_status`: checks first, then the status and the fields that go with it. */
    method SetStatus(new_: Status, reason: Option<string>, c: Caller) returns (error: Option<Error>)
      modifies this
      ensures match ApplyStatus(old(value), new_, reason, c)
              case Ok(r) => error == None && value == r
              case Err(e) => error == Some(e) && value == old(value)
    {
      if new_ !in Transitions(value.status) {
        return Some(InvalidTransition);
      }
      if new_.WontFix? && OrNone(reason).None? {
        return Some(ReasonRequired);
      }
      var before := value.status;
      value := value.(status := new_);
      if new_.Resolved? {
        value := value.(resolvedAt := Some(c.now), resolvedBy := Some(c.id));
      } else if Editable(new_) && before in {Resolved, Verified, WontFix} {
        value := value.(resolvedAt := None, resolvedBy := None, verifiedAt := None, wontFixReason := None);
      }
      if new_.WontFix? {
        value := value.(wontFixReason := reason);
      }
      return None;
    }

    /** `update_remediation`: a later check may fail after earlier fields were assigned, so
        after an error only the caller's rollback restores the row. */
    method Edit(p: Patch, users: set<string>, c: Caller) returns (error: Option<Error>)
      modifies this
      ensures match Update(old(value), p, users, c)
              case Ok(r) => error == None && value == r
              case Err(e) => error == Some(e)
    {
      if SendsFields(p) && !RequireEditable(value.status, p.status) {
        return Some(NotEditable);
      }
      if p.status.Some? {
        error := SetStatus(p.status.value, p.wontFixReason, c);
        if error.Some? {
          return;
        }
      }
      if p.assignedTo.Sent? {
        var assignee := OrNone(p.assignedTo.value);
        if assignee != value.assignedTo {
          if assignee.Some? && assignee.value !in users {
            return Some(UserNotFound);
          }
          value := value.(assignedTo := assignee);
        }
      }
      if p.targetDate.Sent? && p.targetDate.value != value.targetDate {
        if p.targetDate.value.Some? && p.targetDate.value.value < c.today {
          return Some(DatePast);
        }
        value := value.(targetDate := p.targetDate.value);
      }
      if p.notes.Sent? {
        var blank := p.notes.value.None? || Strip(p.notes.value.value) == [];
        value := value.(notes := if blank then None else p.notes.value);
      }
      return None;
    }
  }

  // ----- the store -----

  datatype Key = Key(cveId: string, pair: Pair)

  function KeyOf(r: Row): Key {
    Key(r.cveId, r.pair)
  }

  /** Committed rows by id, and the next unused id. */
  datatype Store = Store(rows: map<nat, Row>, next: nat)

  function KeysIn(s: Store): set<Key> {
    set id | id in s.rows :: KeyOf(s.rows[id])
  }

  datatype Creation = Creation(
    cveId: string, targets: seq<Pair>, assignedTo: Option<string>, targetDate: Option<int>, notes: Option<string>)

  function OpenRow(r: Creation, p: Pair, c: Caller): Row {
    Row(r.cveId, p, Open, c.id, OrNone(r.assignedTo), r.targetDate, r.notes, None, None, None, None)
  }

  /** One open row per pair, under the next ids. */
  function Added(s: Store, r: Creation, pairs: seq<Pair>, c: Caller): Store {
    if pairs == [] then s
    else
      var n := |pairs| - 1;
      var t := Added(s, r, pairs[..n], c);
      Store(t.rows[t.next := OpenRow(r, pairs[n], c)], t.next + 1)
  }

  /** `create_remediations`. `affected` is where StackRox reports the CVE; `seen` are the
      keys the duplicate precheck saw, which may be out of date when the flush happens. */
  function Create(
    s: Store, r: Creation, affected: set<Pair>, seen: set<Key>, users: set<string>, c: Caller): Result<Store, Error>
  {
    var pairs := Dedup(r.targets);
    if exists p :: p in pairs && !CanSee(c, p) then Err(Forbidden)
    else if exists p :: p in pairs && p !in affected then Err(NotAffected)
    else if exists p :: p in pairs && Key(r.cveId, p) in seen then Err(Duplicate)
    else if OrNone(r.assignedTo).Some? && r.assignedTo.value !in users then Err(UserNotFound)
    // the unique constraint, checked by the flush
    else if exists p :: p in pairs && Key(r.cveId, p) in KeysIn(s) then Err(Duplicate)
    else Ok(Added(s, r, pairs, c))
  }

  function PatchRow(s: Store, id: nat, p: Patch, users: set<string>, c: Caller): Result<Store, Error> {
    if id !in s.rows then Err(NotFound)
    else if !CanSee(c, s.rows[id].pair) then Err(Forbidden)
    else match Update(s.rows[id], p, users, c)
      case Err(e) => Err(e)
      case Ok(r) => Ok(s.(rows := s.rows[id := r]))
  }

  function DeleteRow(s: Store, id: nat, c: Caller): Result<Store, Error> {
    if id !in s.rows then Err(NotFound)
    else if !c.isSecTeam && s.rows[id].createdBy != c.id then Err(Forbidden)
    else if !s.rows[id].status.Open? && !s.rows[id].status.WontFix? then Err(NotDeletable)
    else Ok(s.(rows := s.rows - {id}))
  }

  /** The nightly job resolves active rows whose CVE is gone from their namespace. */
  function AutoResolved(r: Row, gone: set<Key>, now: int, note: string): Row {
    if Editable(r.status) && KeyOf(r) in gone then
      r.(status := Resolved, resolvedAt := Some(now),
         notes := Some((if r.notes.Some? then r.notes.value else "") + note))
    else r
  }

  function AutoResolve(s: Store, gone: set<Key>, now: int, note: string): Store {
    s.(rows := map id | id in s.rows :: AutoResolved(s.rows[id], gone, now, note))
  }

  datatype Op =
    | DoCreate(creation: Creation, affected: set<Pair>, seen: set<Key>, users: set<string>, caller: Caller)
    | DoPatch(id: nat, patch: Patch, users: set<string>, caller: Caller)
    | DoDelete(id: nat, caller: Caller)
    | DoAutoResolve(gone: set<Key>, now: int, note: string)

  function Attempt(s: Store, op: Op): Result<Store, Error> {
    match op
    case DoCreate(r, affected, seen, users, c) => Create(s, r, affected, seen, users, c)
    case DoPatch(id, p, users, c) => PatchRow(s, id, p, users, c)
    case DoDelete(id, c) => DeleteRow(s, id, c)
    case DoAutoResolve(gone, now, note) => Ok(AutoResolve(s, gone, now, note))
  }

  /** A rejected request leaves the committed store as it was. */
  function Commit(s: Store, op: Op): Store {
    match Attempt(s, op) case Ok(t) => t case Err(_) => s
  }

  /** The handlers over the committed table. */
  class RemediationTable {
    var rows: map<nat, Row>
    var next: nat

    function Contents(): Store
      reads this
    {
      Store(rows, next)
    }

    constructor ()
      ensures Contents() == Store(map[], 0)
    {
      rows, next := map[], 0;
    }

    /** POST: validate every target, then insert one open row per distinct pair. */
    method CreateRemediations(r: Creation, affected: set<Pair>, seen: set<Key>, users: set<string>, c: Caller)
      returns (error: Option<Error>)
      modifies this
      ensures Contents() == Commit(old(Contents()), DoCreate(r, affected, seen, users, c))
      ensures error ==
              match Create(old(Contents()), r, affected, seen, users, c) case Ok(_) => None case Err(e) => Some(e)
    {
      var pairs := Dedup(r.targets);
      if exists p :: p in pairs && !CanSee(c, p) {
        return Some(Forbidden);
      }
      if exists p :: p in pairs && p !in affected {
        return Some(NotAffected);
      }
      if exists p :: p in pairs && Key(r.cveId, p) in seen {
        return Some(Duplicate);
      }
      if OrNone(r.assignedTo).Some? && r.assignedTo.value !in users {
        return Some(UserNotFound);
      }
      var taken := exists p :: p in pairs && Key(r.cveId, p) in KeysIn(Contents());
      if taken {
        return Some(Duplicate);
      }
      InsertRows(r, pairs, c);
      return None;
    }

    method InsertRows(r: Creation, pairs: seq<Pair>, c: Caller)
      modifies this
      ensures Contents() == Added(old(Contents()), r, pairs, c)
    {
      for i := 0 to |pairs|
        invariant Contents() == Added(old(Contents()), r, pairs[..i], c)
      {
        assert pairs[..i + 1][..i] == pairs[..i];
        rows := rows[next := OpenRow(r, pairs[i], c)];
        next := next + 1;
      }
      assert pairs[..|pairs|] == pairs;
    }

    /** PATCH: edit the loaded row, commit it only when every check passed. */
    method PatchRemediation(id: nat, p: Patch, users: set<string>, c: Caller) returns (error: Option<Error>)
      modifies this
      ensures Contents() == Commit(old(Contents()), DoPatch(id, p, users, c))
      ensures error == match PatchRow(old(Contents()), id, p, users, c) case Ok(_) => None case Err(e) => Some(e)
    {
      if id !in rows {
        return Some(NotFound);
      }
      var loaded := new Remediation(rows[id]);
      if !CanSee(c, loaded.value.pair) {
        return Some(Forbidden);
      }
      error := loaded.Edit(p, users, c);
      if error.None? {
        rows := rows[id := loaded.value];
      }
    }

    method DeleteRemediation(id: nat, c: Caller) returns (error: Option<Error>)
      modifies this`rows
      ensures Contents() == Commit(old(Contents()), DoDelete(id, c))
      ensures error == match DeleteRow(old(Contents()), id, c) case Ok(_) => None case Err(e) => Some(e)
    {
      if id !in rows {
        return Some(NotFound);
      }
      if !c.isSecTeam && rows[id].createdBy != c.id {
        return Some(Forbidden);
      }
      if !rows[id].status.Open? && !rows[id].status.WontFix? {
        return Some(NotDeletable);
      }
      rows := rows - {id};
      return None;
    }

    /** `run_remediation_auto_resolve` */
    method RunAutoResolve(gone: set<Key>, now: int, note: string)
      modifies this`rows
      ensures Contents() == Commit(old(Contents()), DoAutoResolve(gone, now, note))
    {
      var before := rows;
      var rest := before.Keys;
      while rest != {}
        invariant rest <= before.Keys && rows.Keys == before.Keys
        invariant forall id :: id in before ==>
                    rows[id] == if id in rest then before[id] else AutoResolved(before[id], gone, now, note)
        decreases rest
      {
        var id :| id in rest;
        if Editable(rows[id].status) && KeyOf(rows[id]) in gone {
          rows := rows[id := AutoResolved(rows[id], gone, now, note)];
        }
        rest := rest - {id};
      }
    }
  }

  // ----- what every run keeps -----

  /** The fields that go with the status. `Verified` is never reached. */
  predicate RowOk(r: Row) {
    match r.status
    case Open => r.resolvedAt.None? && r.resolvedBy.None? && r.wontFixReason.None? && r.verifiedAt.None?
    case InProgress => r.resolvedAt.None? && r.resolvedBy.None? && r.wontFixReason.None? && r.verifiedAt.None?
    case Resolved => r.resolvedAt.Some? && r.wontFixReason.None? && r.verifiedAt.None?
    case WontFix => OrNone(r.wontFixReason).Some? && r.resolvedAt.None? && r.resolvedBy.None? && r.verifiedAt.None?
    case Verified => false
  }

  ghost predicate StoreOk(s: Store) {
    && (forall id :: id in s.rows ==> id < s.next && RowOk(s.rows[id]))
    && (forall i, j :: i in s.rows && j in s.rows && KeyOf(s.rows[i]) == KeyOf(s.rows[j]) ==> i == j)
  }

  lemma UpdateKeepsRow(r: Row, p: Patch, users: set<string>, c: Caller)
    requires RowOk(r) && Update(r, p, users, c).Ok?
    ensures RowOk(Update(r, p, users, c).value)
    ensures KeyOf(Update(r, p, users, c).value) == KeyOf(r)
  {
    if p.status.Some? {
      StatusKeepsRow(r, p.status.value, p.wontFixReason, c);
    }
  }

  lemma StatusKeepsRow(r: Row, new_: Status, reason: Option<string>, c: Caller)
    requires RowOk(r) && ApplyStatus(r, new_, reason, c).Ok?
    ensures RowOk(ApplyStatus(r, new_, reason, c).value)
    ensures KeyOf(ApplyStatus(r, new_, reason, c).value) == KeyOf(r)
  {
  }

  ghost function BatchKeys(r: Creation, pairs: seq<Pair>): set<Key> {
    set p | p in pairs :: Key(r.cveId, p)
  }

  lemma {:induction false} AddedKeys(s: Store, r: Creation, pairs: seq<Pair>, c: Caller)
    requires StoreOk(s) && Distinct(pairs) && KeysIn(s) !! BatchKeys(r, pairs)
    ensures var t := Added(s, r, pairs, c);
      && StoreOk(t) && t.next == s.next + |pairs|
      && KeysIn(t) == KeysIn(s) + BatchKeys(r, pairs)
      && (forall id :: id in s.rows ==> id in t.rows && t.rows[id] == s.rows[id])
      && (forall id :: id in t.rows && id !in s.rows ==> t.rows[id].status.Open? && t.rows[id].createdBy == c.id)
  {
    if pairs != [] {
      var n := |pairs| - 1;
      assert pairs == pairs[..n] + [pairs[n]];
      AddedKeys(s, r, pairs[..n], c);
      var t := Added(s, r, pairs[..n], c);
      var key := Key(r.cveId, pairs[n]);
      assert key in BatchKeys(r, pairs) && key !in KeysIn(t);
      InsertRow(t, OpenRow(r, pairs[n], c));
      assert BatchKeys(r, pairs) == BatchKeys(r, pairs[..n]) + {key};
    }
  }

  lemma InsertRow(t: Store, row: Row)
    requires StoreOk(t) && RowOk(row) && KeyOf(row) !in KeysIn(t)
    ensures var u := Store(t.rows[t.next := row], t.next + 1);
      StoreOk(u) && KeysIn(u) == KeysIn(t) + {KeyOf(row)}
  {
    var u := Store(t.rows[t.next := row], t.next + 1);
    assert t.next !in t.rows;
    forall i, j | i in u.rows && j in u.rows && KeyOf(u.rows[i]) == KeyOf(u.rows[j]) ensures i == j {
      if i in t.rows { assert KeyOf(t.rows[i]) in KeysIn(t); }
      if j in t.rows { assert KeyOf(t.rows[j]) in KeysIn(t); }
    }
    forall id | id in t.rows ensures u.rows[id] == t.rows[id] {}
    assert u.rows[t.next] == row;
    assert forall k :: k in KeysIn(u) ==> k in KeysIn(t) + {KeyOf(row)};
    forall k | k in KeysIn(t) ensures k in KeysIn(u) {
      var id :| id in t.rows && KeyOf(t.rows[id]) == k;
      assert u.rows[id] == t.rows[id];
    }
  }

  /** A batch is all or nothing, whatever the precheck saw: rejected, it changes nothing;
      accepted, it adds one open row per distinct target, all of them new, affected and
      visible to the caller. */
  lemma CreateAllOrNothing(s: Store, r: Creation, affected: set<Pair>, seen: set<Key>, users: set<string>, c: Caller)
    requires StoreOk(s)
    ensures var t := Commit(s, DoCreate(r, affected, seen, users, c));
      && StoreOk(t)
      && (Create(s, r, affected, seen, users, c).Err? ==> t == s)
      && (Create(s, r, affected, seen, users, c).Ok? ==>
            && KeysIn(s) !! BatchKeys(r, r.targets) && KeysIn(t) == KeysIn(s) + BatchKeys(r, r.targets)
            && (forall p :: p in r.targets ==> p in affected && CanSee(c, p))
            && (forall id :: id in s.rows ==> id in t.rows && t.rows[id] == s.rows[id])
            && (forall id :: id in t.rows && id !in s.rows ==> t.rows[id].status.Open? && t.rows[id].createdBy == c.id)
            && t.next - s.next == |Dedup(r.targets)|)
  {
    var pairs := Dedup(r.targets);
    assert BatchKeys(r, pairs) == BatchKeys(r, r.targets);
    if Create(s, r, affected, seen, users, c).Ok? {
      assert KeysIn(s) !! BatchKeys(r, pairs);
      AddedKeys(s, r, pairs, c);
    }
  }

  lemma CommitKeepsStore(s: Store, op: Op)
    requires StoreOk(s)
    ensures StoreOk(Commit(s, op))
  {
    match op
    case DoCreate(r, affected, seen, users, c) => CreateAllOrNothing(s, r, affected, seen, users, c);
    case DoPatch(id, p, users, c) =>
      if PatchRow(s, id, p, users, c).Ok? {
        UpdateKeepsRow(s.rows[id], p, users, c);
      }
    case DoDelete(id, c) =>
    case DoAutoResolve(gone, now, note) =>
      var t := AutoResolve(s, gone, now, note);
      forall id | id in t.rows ensures KeyOf(t.rows[id]) == KeyOf(s.rows[id]) && RowOk(t.rows[id]) {}
  }

  ghost function After(s: Store, ops: seq<Op>): Store {
    if ops == [] then s else Commit(After(s, ops[..|ops| - 1]), ops[|ops| - 1])
  }

  /** From the empty store, every run of requests and jobs keeps one row per CVE and
      location, and every row consistent with its status. */
  lemma {:induction false} RunsKeepStore(ops: seq<Op>)
    ensures StoreOk(After(Store(map[], 0), ops))
  {
    if ops != [] {
      RunsKeepStore(ops[..|ops| - 1]);
      CommitKeepsStore(After(Store(map[], 0), ops[..|ops| - 1]), ops[|ops| - 1]);
    }
  }

  /** `b` may follow `a` in one committed step: a listed transition, or the nightly job. */
  predicate Follows(a: Status, b: Status) {
    a == b || b in Transitions(a) || (Editable(a) && b.Resolved?)
  }

  /** The editable fields. */
  predicate SameFields(a: Row, b: Row) {
    a.assignedTo == b.assignedTo && a.targetDate == b.targetDate && a.notes == b.notes
  }

  lemma PatchStep(a: Row, p: Patch, users: set<string>, c: Caller)
    requires RowOk(a) && Update(a, p, users, c).Ok?
    ensures var b := Update(a, p, users, c).value;
      && (b.status == a.status || b.status in Transitions(a.status))
      && (SameFields(a, b) || Editable(a.status) || Editable(b.status))
      && (a.targetDate != b.targetDate && b.targetDate.Some? ==> b.targetDate.value >= c.today)
      && (a.status != b.status && b.status.Resolved? ==> b.resolvedAt == Some(c.now) && b.resolvedBy == Some(c.id))
  {
  }

  /** One committed step on an existing row: the status moves along the machine, the
      editable fields change only when the row is active before or after, and a target date
      is never moved into the past. */
  lemma StepOfRow(s: Store, op: Op, id: nat)
    requires StoreOk(s) && id in s.rows && id in Commit(s, op).rows
    ensures var a, b := s.rows[id], Commit(s, op).rows[id];
      && KeyOf(a) == KeyOf(b)
      && Follows(a.status, b.status)
      && (SameFields(a, b) || Editable(a.status) || Editable(b.status))
      && (a.targetDate != b.targetDate && b.targetDate.Some? ==> op.DoPatch? && b.targetDate.value >= op.caller.today)
  {
    match op
    case DoPatch(other, p, users, c) =>
      if other == id && PatchRow(s, id, p, users, c).Ok? {
        UpdateKeepsRow(s.rows[id], p, users, c);
        PatchStep(s.rows[id], p, users, c);
      }
    case DoCreate(r, affected, seen, users, c) => CreateAllOrNothing(s, r, affected, seen, users, c);
    case DoDelete(_, _) =>
    case DoAutoResolve(_, _, _) =>
  }

  /** Rows disappear only by deletion, and only while open or won't-fix. */
  lemma RowsLeaveByDeletion(s: Store, op: Op, id: nat)
    requires StoreOk(s) && id in s.rows && id !in Commit(s, op).rows
    ensures op.DoDelete? && op.id == id && (s.rows[id].status.Open? || s.rows[id].status.WontFix?)
    ensures op.caller.isSecTeam || s.rows[id].createdBy == op.caller.id
  {
    if op.DoCreate? {
      CreateAllOrNothing(s, op.creation, op.affected, op.seen, op.users, op.caller);
    }
  }
}
