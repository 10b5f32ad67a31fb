/** The daily notification summary (services/notification_summary_service.py): a queue of
    events that one job consumes while requests keep adding to it. */
module NotificationSummary {
  import opened Wrappers
  import opened Ordering
  import opened Pairs
  import opened DailyCap
  import opened Days

  const EVENT_RETENTION_DAYS := 14
  const REMEDIATION_OVERDUE_KEY := "remediation_overdue"
  const RISK_EXPIRING_KEY := "risk_expiring"

  datatype Queued = Queued(user: string, messageKey: string, createdAt: int)

  datatype Recipient = Recipient(id: string, seesAll: bool, namespaces: set<Pair>)

  datatype Overdue = Overdue(createdBy: string, assignedTo: Option<string>, pair: Pair)

  /** `wants(user, category)` for email, and the category of a message key. */
  type Preferences = (string, string) -> bool
  type Categories = string -> Option<string>

  // ----- _plan_counts -----

  predicate Counted(wants: Preferences, categories: Categories, user: string, messageKey: string) {
    categories(messageKey).Some? && wants(user, categories(messageKey).value)
  }

  predicate IsTheirs(r: Recipient, o: Overdue) {
    (r.id == o.createdBy || Some(r.id) == o.assignedTo) && (r.seesAll || o.pair in r.namespaces)
  }

  /** `_overdue_count` */
  function OverdueCount(r: Recipient, overdue: seq<Overdue>): nat {
    |Filter(overdue, o => IsTheirs(r, o))|
  }

  /** How often each wanted message key was queued. */
  function Tally(wants: Preferences, categories: Categories, user: string, keys: seq<string>): map<string, nat> {
    map k | k in keys && Counted(wants, categories, user, k) :: multiset(keys)[k]
  }

  function WithLiveCounts(
    counts: map<string, nat>, wants: Preferences, r: Recipient, overdue: seq<Overdue>,
    expiring: map<string, nat>): map<string, nat>
  {
    var c1 :=
      if wants(r.id, "remediation") && OverdueCount(r, overdue) > 0 then
        counts[REMEDIATION_OVERDUE_KEY := OverdueCount(r, overdue)]
      else counts;
    if r.id in expiring && expiring[r.id] > 0 && wants(r.id, "risk_acceptance_updates") then
      c1[RISK_EXPIRING_KEY := expiring[r.id]]
    else c1
  }

  function CountsOf(
    wants: Preferences, categories: Categories, r: Recipient, keys: seq<string>, overdue: seq<Overdue>,
    expiring: map<string, nat>)
    : map<string, nat>
  {
    WithLiveCounts(Tally(wants, categories, r.id, keys), wants, r, overdue, expiring)
  }

  lemma TallyNext(wants: Preferences, categories: Categories, user: string, keys: seq<string>, k: string)
    ensures var before := Tally(wants, categories, user, keys);
      Tally(wants, categories, user, keys + [k]) ==
      if Counted(wants, categories, user, k) then before[k := (if k in before then before[k] else 0) + 1] else before
  {
    assert multiset(keys + [k]) == multiset(keys) + multiset{k};
    forall x ensures x in keys + [k] <==> x in keys || x == k {}
    assert k in keys <==> k in multiset(keys);
  }

  method TallyKeys(
    wants: Preferences, categories: Categories, user: string, keys: seq<string>) returns (counts: map<string, nat>)
    ensures counts == Tally(wants, categories, user, keys)
  {
    counts := map[];
    for i := 0 to |keys|
      invariant counts == Tally(wants, categories, user, keys[..i])
    {
      var k := keys[i];
      assert keys[..i + 1] == keys[..i] + [k];
      TallyNext(wants, categories, user, keys[..i], k);
      if categories(k).Some? && wants(user, categories(k).value) {
        counts := counts[k := (if k in counts then counts[k] else 0) + 1];
      }
    }
    assert keys[..|keys|] == keys;
  }

  /** `_plan_counts` */
  method PlanCounts(
    wants: Preferences, categories: Categories, r: Recipient, keys: seq<string>, overdue: seq<Overdue>,
    expiring: map<string, nat>)
    returns (counts: map<string, nat>)
    ensures counts == CountsOf(wants, categories, r, keys, overdue, expiring)
  {
    counts := TallyKeys(wants, categories, r.id, keys);
    if wants(r.id, "remediation") {
      var n := OverdueCount(r, overdue);
      if n > 0 {
        counts := counts[REMEDIATION_OVERDUE_KEY := n];
      }
    }
    if r.id in expiring && expiring[r.id] > 0 && wants(r.id, "risk_acceptance_updates") {
      counts := counts[RISK_EXPIRING_KEY := expiring[r.id]];
    }
  }

  // ----- one run: read, plan, commit -----

  type Queue = map<nat, Queued>

  /** What one run reads and who it is for. */
  datatype Inputs = Inputs(
    recipients: seq<Recipient>, wants: Preferences, categories: Categories, reachable: set<string>,
    overdue: seq<Overdue>, expiring: map<string, nat>, sentToday: set<string>)

  /** The queued events of a user that the run read, in the order read. */
  function EventsOf(read: seq<(nat, Queued)>, user: string): seq<(nat, Queued)> {
    Filter(read, (e: (nat, Queued)) => e.1.user == user)
  }

  function Ids(events: seq<(nat, Queued)>): seq<nat> {
    seq(|events|, i requires 0 <= i < |events| => events[i].0)
  }

  function MessageKeys(events: seq<(nat, Queued)>): seq<string> {
    seq(|events|, i requires 0 <= i < |events| => events[i].1.messageKey)
  }

  /** One claimed email and the events it was computed from. */
  datatype Email = Email(user: string, day: int, counts: map<string, nat>, from: seq<nat>)

  datatype Plan = Plan(consumed: seq<nat>, emails: seq<Email>)

  function EmailFor(inputs: Inputs, read: seq<(nat, Queued)>, day: int, r: Recipient): Email {
    var events := EventsOf(read, r.id);
    Email(r.id, day,
          CountsOf(inputs.wants, inputs.categories, r, MessageKeys(events), inputs.overdue, inputs.expiring),
          Ids(events))
  }

  /** Events are consumed whenever their user is evaluated, email or not. */
  function PlanFor(inputs: Inputs, read: seq<(nat, Queued)>, day: int, recipients: seq<Recipient>): Plan {
    if recipients == [] then Plan([], [])
    else
      var before := PlanFor(inputs, read, day, recipients[..|recipients| - 1]);
      var r := recipients[|recipients| - 1];
      if r.id in inputs.sentToday then before
      else
        var email := EmailFor(inputs, read, day, r);
        Plan(before.consumed + email.from,
             if email.counts != map[] && r.id in inputs.reachable then before.emails + [email] else before.emails)
  }

  lemma PlanNext(inputs: Inputs, read: seq<(nat, Queued)>, day: int, recipients: seq<Recipient>, i: nat)
    requires i < |recipients|
    ensures var before := PlanFor(inputs, read, day, recipients[..i]);
      var email := EmailFor(inputs, read, day, recipients[i]);
      PlanFor(inputs, read, day, recipients[..i + 1]) ==
      if recipients[i].id in inputs.sentToday then before
      else Plan(before.consumed + email.from,
                if email.counts != map[] && recipients[i].id in inputs.reachable then before.emails + [email]
                else before.emails)
  {
    assert recipients[..i + 1][..i] == recipients[..i];
  }

  /** The recipient loop of `run_notification_summary`. */
  method PlanSummary(inputs: Inputs, read: seq<(nat, Queued)>, day: int) returns (plan: Plan)
    ensures plan == PlanFor(inputs, read, day, inputs.recipients)
  {
    var consumed: seq<nat> := [];
    var emails: seq<Email> := [];
    for i := 0 to |inputs.recipients|
      invariant Plan(consumed, emails) == PlanFor(inputs, read, day, inputs.recipients[..i])
    {
      var r := inputs.recipients[i];
      PlanNext(inputs, read, day, inputs.recipients, i);
      if r.id in inputs.sentToday {
        continue;
      }
      var events := EventsOf(read, r.id);
      var counts := PlanCounts(inputs.wants, inputs.categories, r, MessageKeys(events), inputs.overdue,
        inputs.expiring);
      consumed := consumed + Ids(events);
      if counts == map[] {
        continue;
      }
      if r.id !in inputs.reachable {
        continue;
      }
      emails := emails + [Email(r.id, day, counts, Ids(events))];
    }
    assert inputs.recipients[..|inputs.recipients|] == inputs.recipients;
    plan := Plan(consumed, emails);
  }

  // ----- the system: one job, any number of writers -----

  datatype Phase = Idle | Planned(now: int, plan: Plan)

  /** `evaluated` and `expired` record how events left the queue, `sent` the emails, and
      `latest` the latest day a run committed on. */
  datatype System = System(
    queue: Queue, next: nat, phase: Phase, deliveries: set<Claim>,
    evaluated: set<nat>, expired: set<nat>, sent: seq<Email>, latest: int)

  datatype Action =
    | Enqueue(event: Queued)
    | Read(now: int, inputs: Inputs, read: seq<(nat, Queued)>)
    | Commit
    | Abort

  /** `read` lists each queued event up to `now`, once, in any order. */
  ghost predicate ReadsQueue(q: Queue, now: int, read: seq<(nat, Queued)>) {
    && Distinct(Ids(read))
    && forall id, e :: (id, e) in read <==> id in q && q[id] == e && e.createdAt <= now
  }

  /** The clock does not fall back by more than the delivery retention. */
  ghost predicate Enabled(s: System, a: Action) {
    match a
    case Enqueue(_) => true
    case Read(now, inputs, read) =>
      s.phase.Idle? && ReadsQueue(s.queue, now, read)
      && now >= 0 && DayOf(now) >= s.latest - DELIVERY_RETENTION_DAYS
      && inputs.sentToday == (set c | c in s.deliveries && c.day == DayOf(now) :: c.user)
      && (forall i, j :: 0 <= i < j < |inputs.recipients| ==> inputs.recipients[i].id != inputs.recipients[j].id)
    case Commit => s.phase.Planned?
    case Abort => s.phase.Planned?
  }

  function TooOld(q: Queue, now: int): set<nat> {
    set id | id in q && q[id].createdAt < now - EVENT_RETENTION_DAYS * SECONDS_PER_DAY
  }

  ghost function Next(s: System, a: Action): System {
    match a
    case Enqueue(event) => s.(queue := s.queue[s.next := event], next := s.next + 1)
    case Read(now, inputs, read) => s.(phase := Planned(now, PlanFor(inputs, read, DayOf(now), inputs.recipients)))
    case Abort => s.(phase := Idle)
    case Commit =>
      if s.phase.Idle? then s
      else
        var consumed := Elems(s.phase.plan.consumed) * s.queue.Keys;
        var left := s.queue - consumed;
        s.(queue := left - TooOld(left, s.phase.now), phase := Idle,
           deliveries := Purged(s.deliveries, DayOf(s.phase.now)) + Elems(Claims(s.phase.plan.emails)),
           latest := if DayOf(s.phase.now) > s.latest then DayOf(s.phase.now) else s.latest,
           evaluated := s.evaluated + consumed, expired := s.expired + TooOld(left, s.phase.now),
           sent := s.sent + s.phase.plan.emails)
  }

  function Claims(emails: seq<Email>): seq<Claim> {
    seq(|emails|, i requires 0 <= i < |emails| => Claim(emails[i].user, emails[i].day))
  }

  // ----- what a plan may mention -----

  predicate Disjoint(a: seq<nat>, b: seq<nat>) {
    forall x :: x in a ==> x !in b
  }

  ghost predicate PlanOk(p: Plan, q: Queue) {
    && (forall id :: id in p.consumed ==> id in q)
    && (forall e, id :: e in p.emails && id in e.from ==> id in p.consumed)
    && (forall i, j :: 0 <= i < j < |p.emails| ==> Disjoint(p.emails[i].from, p.emails[j].from))
  }

  lemma {:induction false} FilterIn<T>(s: seq<T>, keep: T -> bool, x: T)
    ensures x in Filter(s, keep) <==> x in s && keep(x)
  {
    if s != [] {
      FilterIn(s[1..], keep, x);
      assert s == [s[0]] + s[1..];
    }
  }

  lemma EventsOfUser(read: seq<(nat, Queued)>, user: string, id: nat)
    ensures id in Ids(EventsOf(read, user)) <==> exists e :: (id, e) in read && e.user == user
  {
    var events := EventsOf(read, user);
    if id in Ids(events) {
      var i :| 0 <= i < |events| && Ids(events)[i] == id;
      FilterIn(read, (e: (nat, Queued)) => e.1.user == user, events[i]);
      assert (id, events[i].1) in read;
    }
    if e :| (id, e) in read && e.user == user {
      FilterIn(read, (e: (nat, Queued)) => e.1.user == user, (id, e));
      var i :| 0 <= i < |events| && events[i] == (id, e);
      assert Ids(events)[i] == id;
    }
  }

  /** A plan consumes exactly the events read for the users it evaluated. */
  lemma {:induction false} PlanConsumes(
    inputs: Inputs, read: seq<(nat, Queued)>, day: int, recipients: seq<Recipient>, q: Queue, now: int, id: nat)
    requires ReadsQueue(q, now, read)
    ensures id in PlanFor(inputs, read, day, recipients).consumed <==>
            id in q && q[id].createdAt <= now
            && exists r :: r in recipients && r.id !in inputs.sentToday && r.id == q[id].user
  {
    if recipients != [] {
      var n := |recipients| - 1;
      var r := recipients[n];
      assert recipients == recipients[..n] + [r];
      PlanConsumes(inputs, read, day, recipients[..n], q, now, id);
      EventsOfUser(read, r.id, id);
      if r.id !in inputs.sentToday {
        assert id in Ids(EventsOf(read, r.id)) <==> id in q && q[id].createdAt <= now && q[id].user == r.id by {
          if id in q { assert (id, q[id]) in read <==> q[id].createdAt <= now; }
        }
      }
    }
  }

  /** Emails of one plan never share an event, and use only consumed ones. */
  lemma {:induction false} PlanIsOk(
    inputs: Inputs, read: seq<(nat, Queued)>, day: int, recipients: seq<Recipient>, q: Queue, now: int)
    requires ReadsQueue(q, now, read)
    requires forall i, j :: 0 <= i < j < |recipients| ==> recipients[i].id != recipients[j].id
    ensures PlanOk(PlanFor(inputs, read, day, recipients), q)
    ensures forall e :: e in PlanFor(inputs, read, day, recipients).emails ==>
              e.user !in inputs.sentToday && exists r :: r in recipients && e == EmailFor(inputs, read, day, r)
    ensures Distinct(Claims(PlanFor(inputs, read, day, recipients).emails))
  {
    if recipients != [] {
      var n := |recipients| - 1;
      var before, p := PlanFor(inputs, read, day, recipients[..n]), PlanFor(inputs, read, day, recipients);
      var r := recipients[n];
      PlanIsOk(inputs, read, day, recipients[..n], q, now);
      forall id | id in p.consumed ensures id in q { PlanConsumes(inputs, read, day, recipients, q, now, id); }
      var mine := EmailFor(inputs, read, day, r);
      forall e | e in before.emails ensures Disjoint(e.from, mine.from) {
        var other :| other in recipients[..n] && e == EmailFor(inputs, read, day, other);
        SeparateUsers(inputs, read, day, other, r, q, now);
      }
      forall e | e in before.emails ensures e.user != r.id {
        var other :| other in recipients[..n] && e == EmailFor(inputs, read, day, other);
      }
      OneMoreClaim(before.emails, mine);
      forall e | e in p.emails ensures exists s :: s in recipients && e == EmailFor(inputs, read, day, s) {
        if e in before.emails {
          var s :| s in recipients[..n] && e == EmailFor(inputs, read, day, s);
          assert s in recipients;
        } else {
          assert e == mine && r in recipients;
        }
      }
    }
  }

  lemma OneMoreClaim(emails: seq<Email>, email: Email)
    requires Distinct(Claims(emails)) && forall e :: e in emails ==> e.user != email.user
    ensures Distinct(Claims(emails + [email]))
  {
    var longer := emails + [email];
    forall i, j | 0 <= i < j < |longer| ensures Claims(longer)[i] != Claims(longer)[j] {
      if j < |emails| {
        assert Claims(emails)[i] != Claims(emails)[j];
      } else {
        assert emails[i] in emails;
      }
    }
  }

  lemma SeparateUsers(
    inputs: Inputs, read: seq<(nat, Queued)>, day: int, a: Recipient, b: Recipient, q: Queue, now: int)
    requires ReadsQueue(q, now, read) && a.id != b.id
    ensures Disjoint(EmailFor(inputs, read, day, a).from, EmailFor(inputs, read, day, b).from)
  {
    forall id | id in EmailFor(inputs, read, day, a).from ensures id !in EmailFor(inputs, read, day, b).from {
      EventsOfUser(read, a.id, id);
      EventsOfUser(read, b.id, id);
      var e :| (id, e) in read && e.user == a.id;
      assert forall f :: (id, f) in read ==> f == q[id];
    }
  }

  // ----- no event is lost or counted twice -----

  ghost predicate Inv(s: System) {
    // every event ever queued is in exactly one place
    && (forall id: nat :: id < s.next <==> id in s.queue || id in s.evaluated || id in s.expired)
    && s.queue.Keys !! s.evaluated && s.queue.Keys !! s.expired && s.evaluated !! s.expired
    // what was emailed was evaluated, and no two emails share an event
    && (forall e, id :: e in s.sent && id in e.from ==> id in s.evaluated)
    && (forall i, j :: 0 <= i < j < |s.sent| ==> Disjoint(s.sent[i].from, s.sent[j].from))
    && (s.phase.Planned? ==> PlanOk(s.phase.plan, s.queue))
    && DailyInv(s)
  }

  /** No user was emailed twice on a day, and the deliveries still prevent it. */
  ghost predicate DailyInv(s: System) {
    && Remembered(EmailState(s.deliveries, Claims(s.sent)), s.latest)
    && (s.phase.Planned? ==>
          && DayOf(s.phase.now) >= s.latest - DELIVERY_RETENTION_DAYS
          && Distinct(Claims(s.phase.plan.emails))
          && forall e :: e in s.phase.plan.emails ==>
             e.day == DayOf(s.phase.now) && Claim(e.user, e.day) !in s.deliveries)
  }

  lemma ClaimedAre(emails: seq<Email>, run: EmailRun, deliveries: set<Claim>)
    requires run.owed == set e | e in emails :: e.user
    requires forall e :: e in emails ==> e.day == run.day && Claim(e.user, e.day) !in deliveries
    ensures Elems(Claims(emails)) == ClaimsOf(deliveries, run)
  {
    forall c ensures c in Elems(Claims(emails)) <==> c in ClaimsOf(deliveries, run) {
      if c in Claims(emails) {
        var i :| 0 <= i < |emails| && Claims(emails)[i] == c;
        assert emails[i] in emails;
      }
      if c in ClaimsOf(deliveries, run) {
        var e :| e in emails && e.user == c.user;
        var i :| 0 <= i < |emails| && emails[i] == e;
        assert Claims(emails)[i] == c;
      }
    }
  }

  lemma CommitKeepsDaily(s: System)
    requires DailyInv(s) && s.phase.Planned?
    ensures DailyInv(Next(s, Commit))
  {
    var t, emails := Next(s, Commit), s.phase.plan.emails;
    var run := EmailRun(DayOf(s.phase.now), set e | e in emails :: e.user);
    var before, after := EmailState(s.deliveries, Claims(s.sent)), EmailState(t.deliveries, Claims(t.sent));
    assert Claims(t.sent) == Claims(s.sent) + Claims(emails);
    assert after.sent[|before.sent|..] == Claims(emails);
    ClaimedAre(emails, run, s.deliveries);
    SendingStep(before, run, after, s.latest);
  }

  lemma CommitKeepsInv(s: System)
    requires Inv(s) && s.phase.Planned?
    ensures Inv(Next(s, Commit))
  {
    var p, t := s.phase.plan, Next(s, Commit);
    CommitKeepsDaily(s);
    assert Elems(p.consumed) * s.queue.Keys == Elems(p.consumed);
    forall e, id | e in t.sent && id in e.from ensures id in t.evaluated {
      if e in p.emails { assert id in Elems(p.consumed); }
    }
    forall i, j | 0 <= i < j < |t.sent| ensures Disjoint(t.sent[i].from, t.sent[j].from) {
      if i < |s.sent| <= j {
        var later := p.emails[j - |s.sent|];
        assert t.sent[j] == later && t.sent[i] == s.sent[i];
        forall x | x in t.sent[i].from ensures x !in later.from {
          assert x in s.evaluated && x !in s.queue;
        }
      } else if |s.sent| <= i {
        assert t.sent[i] == p.emails[i - |s.sent|] && t.sent[j] == p.emails[j - |s.sent|];
      }
    }
  }

  lemma StepKeepsInv(s: System, a: Action)
    requires Inv(s) && Enabled(s, a)
    ensures Inv(Next(s, a))
  {
    match a
    case Enqueue(event) =>
      assert s.next !in s.queue && s.next !in s.evaluated && s.next !in s.expired;
    case Read(now, inputs, read) =>
      PlanIsOk(inputs, read, DayOf(now), inputs.recipients, s.queue, now);
      ReadKeepsDaily(s, now, inputs, read);
    case Commit => CommitKeepsInv(s);
    case Abort =>
  }

  lemma ReadKeepsDaily(s: System, now: int, inputs: Inputs, read: seq<(nat, Queued)>)
    requires DailyInv(s) && Enabled(s, Read(now, inputs, read))
    ensures DailyInv(Next(s, Read(now, inputs, read)))
  {
    PlanIsOk(inputs, read, DayOf(now), inputs.recipients, s.queue, now);
    var plan := PlanFor(inputs, read, DayOf(now), inputs.recipients);
    forall e | e in plan.emails ensures e.day == DayOf(now) && Claim(e.user, e.day) !in s.deliveries {
      var r :| r in inputs.recipients && e == EmailFor(inputs, read, DayOf(now), r);
      assert forall c :: c in s.deliveries && c.day == DayOf(now) ==> c.user in inputs.sentToday;
    }
  }

  const START := System(map[], 0, Idle, {}, {}, {}, [], 0)

  ghost predicate Trace(states: seq<System>, actions: seq<Action>) {
    && |states| == |actions| + 1 && states[0] == START
    && forall i :: 0 <= i < |actions| ==> Enabled(states[i], actions[i]) && states[i + 1] == Next(states[i], actions[i])
  }

  lemma {:induction false} RunKeepsInv(states: seq<System>, actions: seq<Action>, k: nat)
    requires Trace(states, actions) && k < |states|
    ensures Inv(states[k])
  {
    if k > 0 {
      RunKeepsInv(states, actions, k - 1);
      StepKeepsInv(states[k - 1], actions[k - 1]);
    }
  }

  /** The places an event can be in. */
  function Places(s: System, id: nat): nat {
    (if id in s.queue then 1 else 0) + (if id in s.evaluated then 1 else 0) + if id in s.expired then 1 else 0
  }

  /** Every interleaving: each event ever queued is in exactly one place (queued, evaluated,
      expired) and is counted in at most one email; nobody gets two emails on one day. */
  lemma NothingLostOrCountedTwice(states: seq<System>, actions: seq<Action>, k: nat, id: nat, i: nat, j: nat)
    requires Trace(states, actions) && k < |states|
    ensures Places(states[k], id) == if id < states[k].next then 1 else 0
    ensures var sent := states[k].sent;
      i < |sent| && j < |sent| && i != j ==>
        && !(id in sent[i].from && id in sent[j].from)
        && (sent[i].user != sent[j].user || sent[i].day != sent[j].day)
  {
    RunKeepsInv(states, actions, k);
    var s := states[k];
    if i < |s.sent| && j < |s.sent| && i != j {
      var a, b := if i < j then i else j, if i < j then j else i;
      assert Disjoint(s.sent[a].from, s.sent[b].from);
      assert Claims(s.sent)[a] != Claims(s.sent)[b];
    }
  }

  /** A pending plan comes from a read with only writers since. */
  lemma {:induction false} LastRead(states: seq<System>, actions: seq<Action>, m: nat) returns (k: nat)
    requires Trace(states, actions) && m < |states| && states[m].phase.Planned?
    ensures k < m && actions[k].Read? && forall i :: k < i < m ==> actions[i].Enqueue?
  {
    assert states[m] == Next(states[m - 1], actions[m - 1]);
    if actions[m - 1].Enqueue? {
      k := LastRead(states, actions, m - 1);
    } else {
      k := m - 1;
    }
  }

  /** An event leaves the queue only in a commit: because the run that read it evaluated
      its user, or because it is older than the retention. One that arrived after the read
      can only expire. */
  lemma LeavesForAReason(states: seq<System>, actions: seq<Action>, m: nat, id: nat) returns (k: nat)
    requires Trace(states, actions) && m < |actions|
    requires id in states[m].queue && id !in states[m + 1].queue
    ensures actions[m] == Commit && k < m && actions[k].Read?
    ensures var e, run := states[m].queue[id], actions[k];
      || e.createdAt < run.now - EVENT_RETENTION_DAYS * SECONDS_PER_DAY
      || (id in states[k].queue && e.createdAt <= run.now
          && exists r :: r in run.inputs.recipients && r.id !in run.inputs.sentToday && r.id == e.user)
  {
    assert states[m + 1] == Next(states[m], actions[m]);
    RunKeepsInv(states, actions, m);
    assert actions[m] == Commit;
    k := LastRead(states, actions, m);
    CommitConsumes(states, actions, k, m, id);
  }

  lemma CommitConsumes(states: seq<System>, actions: seq<Action>, k: nat, m: nat, id: nat)
    requires Trace(states, actions) && k < m < |actions| && actions[m] == Commit
    requires actions[k].Read? && forall i :: k < i < m ==> actions[i].Enqueue?
    requires id in states[m].queue && id !in states[m + 1].queue
    ensures var e, run := states[m].queue[id], actions[k];
      || e.createdAt < run.now - EVENT_RETENTION_DAYS * SECONDS_PER_DAY
      || (id in states[k].queue && e.createdAt <= run.now
          && exists r :: r in run.inputs.recipients && r.id !in run.inputs.sentToday && r.id == e.user)
  {
    var run := actions[k];
    StillPlanned(states, actions, k, m);
    assert states[m + 1] == Next(states[m], actions[m]);
    RunKeepsInv(states, actions, k);
    RunKeepsInv(states, actions, m);
    PlanConsumes(run.inputs, run.read, DayOf(run.now), run.inputs.recipients, states[k].queue, run.now, id);
  }

  /** While writers interleave, the plan stands and the events it read stay as they were. */
  lemma {:induction false} StillPlanned(states: seq<System>, actions: seq<Action>, k: nat, m: nat)
    requires Trace(states, actions) && k < m < |states| && actions[k].Read?
    requires forall i :: k < i < m ==> actions[i].Enqueue?
    ensures states[m].phase == states[k + 1].phase
    ensures forall id :: id in states[k].queue ==> id in states[m].queue && states[m].queue[id] == states[k].queue[id]
    decreases m
  {
    if m > k + 1 {
      StillPlanned(states, actions, k, m - 1);
      RunKeepsInv(states, actions, m - 1);
      assert states[m] == Next(states[m - 1], actions[m - 1]);
      assert states[m - 1].next !in states[m - 1].queue;
    }
    assert states[k + 1] == Next(states[k], actions[k]);
  }
}
