/** Team CVE alerts (services/team_notifications.py): marks of what was already alerted,
    diffed daily, with silent baselines and a capped summary email. */
module Alerts {
  import opened Pairs
  import opened Ordering
  import opened Suppression
  import opened DailyCap

  /** `Other` stands for reasons stored by earlier versions. */
  datatype Reason = Visible | Prioritized | Critical | CriticalFixable | Baseline | EmailBaseline | Other(name: string)

  datatype Key = Key(cveId: string, loc: Pair, reason: Reason)

  const BASELINE_MARK := Key("__baseline__", Pair("", ""), Baseline)
  const BASELINE_MARK_EMAIL := Key("__baseline__", Pair("", ""), EmailBaseline)
  const BASELINE_MARKS: set<Key> := {BASELINE_MARK, BASELINE_MARK_EMAIL}

  const CRITICAL := 4
  const MAX_ALERTS_PER_USER := 10

  function BaselineFor(reason: Reason): Key {
    if reason.Critical? || reason.CriticalFixable? then BASELINE_MARK_EMAIL else BASELINE_MARK
  }

  // ----- classify_candidates -----

  datatype Candidate = Candidate(cveId: string, row: LocationRow, severity: int, fixable: bool)

  /** One in-app key, prioritization winning over plain visibility, and the email keys. */
  function KeysOf(c: Candidate, prioritized: set<string>): set<Key> {
    {Key(c.cveId, c.row.loc, if c.cveId in prioritized then Prioritized else Visible)}
    + (if c.severity == CRITICAL then {Key(c.cveId, c.row.loc, Critical)} else {})
    + (if c.severity == CRITICAL && c.fixable then {Key(c.cveId, c.row.loc, CriticalFixable)} else {})
  }

  ghost predicate Alertworthy(
    glob: Glob, rows: seq<Candidate>, prioritized: set<string>, cveRules: seq<CveRule>,
    componentRules: seq<ComponentRule>, key: Key)
  {
    exists c :: c in rows && !LocationSuppressed(glob, cveRules, componentRules, c.cveId, c.row)
      && key in KeysOf(c, prioritized)
  }

  /** `classify_candidates` */
  method ClassifyCandidates(
    glob: Glob, rows: seq<Candidate>, prioritized: set<string>, cveRules: seq<CveRule>,
    componentRules: seq<ComponentRule>)
    returns (keys: set<Key>)
    ensures forall key :: key in keys <==> Alertworthy(glob, rows, prioritized, cveRules, componentRules, key)
    ensures keys !! BASELINE_MARKS
  {
    keys := {};
    for i := 0 to |rows|
      invariant forall key :: key in keys <==> Alertworthy(glob, rows[..i], prioritized, cveRules, componentRules, key)
      invariant keys !! BASELINE_MARKS
    {
      assert rows[..i + 1] == rows[..i] + [rows[i]];
      var hidden := IsLocationSuppressed(glob, rows[i].cveId, rows[i].row, cveRules, componentRules);
      if !hidden {
        keys := keys + KeysOf(rows[i], prioritized);
      }
    }
    assert rows[..|rows|] == rows;
  }

  // ----- plan_user_alerts -----

  /** Preference of a user for the notifications or emails of one reason. */
  type Preferences = (string, Reason) -> bool

  datatype Recipient = Recipient(id: string, seesAll: bool, namespaces: seq<Pair>)

  datatype AlertGroup = AlertGroup(cveId: string, reason: Reason)

  datatype UserAlert = UserAlert(cveId: string, reason: Reason, namespaces: seq<Pair>)

  /** The recipient's namespaces, in their order, that have a new key of the group. */
  function Hits(namespaces: seq<Pair>, newKeys: set<Key>, g: AlertGroup): seq<Pair> {
    if namespaces == [] then []
    else
      var n := |namespaces| - 1;
      Hits(namespaces[..n], newKeys, g)
      + if Key(g.cveId, namespaces[n], g.reason) in newKeys then [namespaces[n]] else []
  }

  lemma {:induction false} HitsMembers(namespaces: seq<Pair>, newKeys: set<Key>, g: AlertGroup, l: Pair)
    ensures l in Hits(namespaces, newKeys, g) <==> l in namespaces && Key(g.cveId, l, g.reason) in newKeys
  {
    if namespaces != [] {
      var n := |namespaces| - 1;
      assert namespaces == namespaces[..n] + [namespaces[n]];
      HitsMembers(namespaces[..n], newKeys, g, l);
    }
  }

  function GroupOf(a: UserAlert): AlertGroup {
    AlertGroup(a.cveId, a.reason)
  }

  /** Prioritized CVEs first, then by CVE. */
  predicate AlertLe(a: UserAlert, b: UserAlert) {
    if a.reason.Prioritized? != b.reason.Prioritized? then a.reason.Prioritized? else StrLe(a.cveId, b.cveId)
  }

  /** The alerts of one team member: one per CVE and reason, with every location of theirs
      that has the key. Org-wide users get none. */
  ghost predicate IsPlan(alerts: seq<UserAlert>, recipient: Recipient, newKeys: set<Key>) {
    && Sorted(alerts, AlertLe)
    && (forall i, j :: 0 <= i < j < |alerts| ==> GroupOf(alerts[i]) != GroupOf(alerts[j]))
    && (forall a :: a in alerts <==> IsAlert(a, recipient, newKeys))
  }

  predicate IsAlert(a: UserAlert, recipient: Recipient, newKeys: set<Key>) {
    && !recipient.seesAll && a.namespaces != []
    && a.namespaces == Hits(recipient.namespaces, newKeys, GroupOf(a))
  }

  /** In-app keys leave one possible plan. */
  lemma PlanIsUnique(x: seq<UserAlert>, y: seq<UserAlert>, recipient: Recipient, newKeys: set<Key>)
    requires IsPlan(x, recipient, newKeys) && IsPlan(y, recipient, newKeys)
    requires forall k :: k in newKeys ==> k.reason in IN_APP_REASONS
    ensures x == y
  {
    StrLeOrder();
    forall a, b | a in x && b in x && AlertLe(a, b) && AlertLe(b, a) ensures a == b {
      ReasonOfAlert(a, recipient, newKeys);
      ReasonOfAlert(b, recipient, newKeys);
      assert GroupOf(a) == GroupOf(b);
    }
    forall a ensures a in x <==> a in y {
      assert IsAlert(a, recipient, newKeys) <==> a in y;
    }
    CanonicalUnique(x, y, Elems(x), AlertLe);
  }

  lemma ReasonOfAlert(a: UserAlert, recipient: Recipient, newKeys: set<Key>)
    requires IsAlert(a, recipient, newKeys) && forall k :: k in newKeys ==> k.reason in IN_APP_REASONS
    ensures a.reason.Visible? || a.reason.Prioritized?
  {
    HitsMembers(recipient.namespaces, newKeys, GroupOf(a), a.namespaces[0]);
  }

  /** `plan_user_alerts` for one recipient: alerts grow while its namespaces are walked. */
  method PlanUserAlerts(recipient: Recipient, newKeys: set<Key>) returns (alerts: seq<UserAlert>)
    ensures IsPlan(alerts, recipient, newKeys)
  {
    if recipient.seesAll {
      return [];
    }
    var groups: map<AlertGroup, seq<Pair>> := map[];
    for i := 0 to |recipient.namespaces|
      invariant Grouped(groups, newKeys, recipient.namespaces[..i])
    {
      groups := WalkNamespace(groups, newKeys, recipient.namespaces[..i], recipient.namespaces[i]);
      assert recipient.namespaces[..i + 1] == recipient.namespaces[..i] + [recipient.namespaces[i]];
    }
    assert recipient.namespaces[..|recipient.namespaces|] == recipient.namespaces;
    alerts := ListAlerts(groups);
    GroupedIsPlan(groups, alerts, recipient, newKeys);
  }

  function At(groups: map<AlertGroup, seq<Pair>>, g: AlertGroup): seq<Pair> {
    if g in groups then groups[g] else []
  }

  ghost predicate Grouped(groups: map<AlertGroup, seq<Pair>>, newKeys: set<Key>, walked: seq<Pair>) {
    (forall g :: At(groups, g) == Hits(walked, newKeys, g)) && forall g :: g in groups ==> groups[g] != []
  }

  /** The keys of one namespace, in any order. */
  method WalkNamespace(groups: map<AlertGroup, seq<Pair>>, newKeys: set<Key>, ghost walked: seq<Pair>, loc: Pair)
    returns (r: map<AlertGroup, seq<Pair>>)
    requires Grouped(groups, newKeys, walked)
    ensures Grouped(r, newKeys, walked + [loc])
  {
    r := groups;
    var rest := set k | k in newKeys && k.loc == loc;
    while rest != {}
      invariant rest <= set k | k in newKeys && k.loc == loc
      invariant forall g :: At(r, g) == At(groups, g) +
                  if Key(g.cveId, loc, g.reason) in newKeys && Key(g.cveId, loc, g.reason) !in rest then [loc] else []
      invariant forall g :: g in r ==> r[g] != []
      decreases rest
    {
      var k :| k in rest;
      var g := AlertGroup(k.cveId, k.reason);
      assert Key(g.cveId, loc, g.reason) == k;
      r := r[g := At(r, g) + [loc]];
      rest := rest - {k};
    }
    assert (walked + [loc])[..|walked|] == walked;
  }

  /** `sorted(alerts.values(), ...)` */
  method ListAlerts(groups: map<AlertGroup, seq<Pair>>) returns (alerts: seq<UserAlert>)
    ensures Sorted(alerts, AlertLe)
    ensures forall i, j :: 0 <= i < j < |alerts| ==> GroupOf(alerts[i]) != GroupOf(alerts[j])
    ensures forall a :: a in alerts <==> GroupOf(a) in groups && a.namespaces == groups[GroupOf(a)]
  {
    var values: seq<UserAlert> := [];
    var rest := groups.Keys;
    while rest != {}
      invariant rest <= groups.Keys
      invariant forall a ::
        a in values <==> GroupOf(a) in groups && GroupOf(a) !in rest && a.namespaces == groups[GroupOf(a)]
      invariant Distinct(values)
      decreases rest
    {
      var g :| g in rest;
      values := values + [UserAlert(g.cveId, g.reason, groups[g])];
      rest := rest - {g};
    }
    AlertOrder();
    SortPermutes(values, AlertLe);
    SortSorts(values, AlertLe);
    alerts := Sort(values, AlertLe);
    PermutationDistinct(values, alerts);
    forall a ensures a in alerts <==> a in values {
      assert a in alerts <==> a in multiset(alerts);
    }
    forall i, j | 0 <= i < j < |alerts| ensures GroupOf(alerts[i]) != GroupOf(alerts[j]) {
      assert alerts[i] in alerts && alerts[j] in alerts && alerts[i] != alerts[j];
    }
  }

  lemma AlertOrder()
    ensures TotalPreorder(AlertLe)
  {
    StrLeOrder();
  }

  lemma GroupedIsPlan(
    groups: map<AlertGroup, seq<Pair>>, alerts: seq<UserAlert>, recipient: Recipient, newKeys: set<Key>)
    requires !recipient.seesAll && Grouped(groups, newKeys, recipient.namespaces)
    requires Sorted(alerts, AlertLe)
    requires forall i, j :: 0 <= i < j < |alerts| ==> GroupOf(alerts[i]) != GroupOf(alerts[j])
    requires forall a :: a in alerts <==> GroupOf(a) in groups && a.namespaces == groups[GroupOf(a)]
    ensures IsPlan(alerts, recipient, newKeys)
  {
    forall a ensures a in alerts <==> IsAlert(a, recipient, newKeys) {
      assert At(groups, GroupOf(a)) == Hits(recipient.namespaces, newKeys, GroupOf(a));
    }
  }

  // ----- _send_user_alerts -----

  const IN_APP_REASONS: set<Reason> := {Visible, Prioritized}

  datatype Notification =
    | Single(reason: Reason, cveId: string, scope: seq<Pair>)
    | Summary(reason: Reason, count: nat, scope: seq<Pair>)

  function OfReason(alerts: seq<UserAlert>, reason: Reason): seq<UserAlert> {
    Filter(alerts, (a: UserAlert) => a.reason == reason)
  }

  function Singles(group: seq<UserAlert>): seq<Notification> {
    seq(|group|, i requires 0 <= i < |group| => Single(group[i].reason, group[i].cveId, group[i].namespaces))
  }

  function ScopesOf(group: seq<UserAlert>): set<Pair> {
    set a, l | a in group && l in a.namespaces :: l
  }

  /** What one reason sends: nothing, single notifications, or one summary beyond the cap. */
  ghost function SentFor(wanted: bool, alerts: seq<UserAlert>, reason: Reason): seq<Notification> {
    var group := OfReason(alerts, reason);
    if group == [] || !wanted then []
    else if |group| > MAX_ALERTS_PER_USER then [Summary(reason, |group|, SortedOf(ScopesOf(group), ByNamespace))]
    else Singles(group)
  }

  ghost function SentTo(wants: Preferences, user: string, alerts: seq<UserAlert>): seq<Notification> {
    SentFor(wants(user, Visible), alerts, Visible) + SentFor(wants(user, Prioritized), alerts, Prioritized)
  }

  method SendReason(wanted: bool, alerts: seq<UserAlert>, reason: Reason) returns (sent: seq<Notification>)
    ensures sent == SentFor(wanted, alerts, reason)
  {
    var group := OfReason(alerts, reason);
    if |group| == 0 || !wanted {
      return [];
    }
    if |group| > MAX_ALERTS_PER_USER {
      var scope := SortedScope(ScopesOf(group));
      return [Summary(reason, |group|, scope)];
    }
    sent := [];
    for i := 0 to |group|
      invariant sent == Singles(group)[..i]
    {
      sent := sent + [Single(group[i].reason, group[i].cveId, group[i].namespaces)];
    }
  }

  method SortedScope(pairs: set<Pair>) returns (scope: seq<Pair>)
    ensures scope == SortedOf(pairs, ByNamespace)
  {
    var listed := ListPairs(pairs);
    PairOrders();
    SortIsSortedOf(listed, ByNamespace);
    scope := Sort(listed, ByNamespace);
  }

  /** `_send_user_alerts` */
  method SendUserAlerts(wants: Preferences, user: string, alerts: seq<UserAlert>) returns (sent: seq<Notification>)
    ensures sent == SentTo(wants, user, alerts)
  {
    var visible := SendReason(wants(user, Visible), alerts, Visible);
    var prioritized := SendReason(wants(user, Prioritized), alerts, Prioritized);
    sent := visible + prioritized;
  }

  ghost predicate Mentions(sent: seq<Notification>, reason: Reason, l: Pair) {
    exists n :: n in sent && n.reason == reason && l in n.scope
  }

  /** The cap bounds a reason to ten notifications and drops no location: what a wanted
      reason sends mentions exactly the locations of its alerts. */
  lemma CapDropsNoLocation(wanted: bool, alerts: seq<UserAlert>, reason: Reason, l: Pair)
    ensures |SentFor(wanted, alerts, reason)| <= MAX_ALERTS_PER_USER
    ensures Mentions(SentFor(wanted, alerts, reason), reason, l) <==>
            wanted && exists a :: a in alerts && a.reason == reason && l in a.namespaces
  {
    var group, sent := OfReason(alerts, reason), SentFor(wanted, alerts, reason);
    FilterMembers(alerts, (a: UserAlert) => a.reason == reason);
    PairOrders();
    SortedOfCanonical(ScopesOf(group), ByNamespace);
    if l in ScopesOf(group) && wanted {
      var a :| a in group && l in a.namespaces;
      var i :| 0 <= i < |group| && group[i] == a;
      if |group| > MAX_ALERTS_PER_USER {
        assert l in Elems(sent[0].scope) && sent[0] in sent;
      } else {
        assert sent[i] in sent && sent[i] == Single(a.reason, a.cveId, a.namespaces);
      }
    }
    if Mentions(sent, reason, l) {
      var n :| n in sent && n.reason == reason && l in n.scope;
      if |group| > MAX_ALERTS_PER_USER {
        assert l in Elems(n.scope);
        assert l in ScopesOf(group);
      } else {
        var i :| 0 <= i < |sent| && sent[i] == n;
        assert group[i] in group;
      }
    }
  }

  // ----- plan_alert_emails -----

  datatype EmailCounts = EmailCounts(newCritical: nat, criticalFixable: nat, prioritized: nat, newRelevant: nat)

  predicate HasNews(c: EmailCounts) {
    c.newCritical > 0 || c.criticalFixable > 0 || c.prioritized > 0 || c.newRelevant > 0
  }

  /** The CVEs with a new key of this reason where the recipient may look, each once. */
  function NewCves(recipient: Recipient, newKeys: set<Key>, reason: Reason): set<string> {
    set k | k in newKeys && k.reason == reason && (recipient.seesAll || k.loc in recipient.namespaces) :: k.cveId
  }

  function CountsFor(recipient: Recipient, newKeys: set<Key>): EmailCounts {
    EmailCounts(|NewCves(recipient, newKeys, Critical)|, |NewCves(recipient, newKeys, CriticalFixable)|,
                |NewCves(recipient, newKeys, Prioritized)|, |NewCves(recipient, newKeys, Visible)|)
  }

  // ----- the daily diff -----

  function Wanted(wants: Preferences, user: string, c: EmailCounts): EmailCounts {
    EmailCounts(if wants(user, Critical) then c.newCritical else 0,
                if wants(user, CriticalFixable) then c.criticalFixable else 0,
                if wants(user, Prioritized) then c.prioritized else 0,
                if wants(user, Visible) then c.newRelevant else 0)
  }

  function NewKeys(marks: set<Key>, current: set<Key>): set<Key> {
    current - (marks - BASELINE_MARKS)
  }

  function StaleKeys(marks: set<Key>, current: set<Key>): set<Key> {
    (marks - BASELINE_MARKS) - current
  }

  /** Missing baselines and new keys are added, stale keys deleted. */
  function NextMarks(marks: set<Key>, current: set<Key>): set<Key> {
    (marks + (BASELINE_MARKS - marks)) - StaleKeys(marks, current) + NewKeys(marks, current)
  }

  /** New keys whose own baseline was stored before this run. */
  function NotifyKeys(marks: set<Key>, current: set<Key>): set<Key> {
    set k | k in NewKeys(marks, current) && BaselineFor(k.reason) !in BASELINE_MARKS - marks
  }

  /** The recipients with a deliverable address and news they opted into. */
  function OwedUsers(
    wants: Preferences, reachable: set<string>, recipients: seq<Recipient>, keys: set<Key>): set<string>
  {
    set r | r in recipients && HasNews(CountsWanted(wants, r, keys)) && r.id in reachable :: r.id
  }

  ghost function ClaimedBy(jobs: seq<Job>, day: int): set<Claim> {
    set j | j in jobs :: Claim(j.user, day)
  }

  datatype Job = Job(user: string, counts: EmailCounts)

  ghost predicate CountsAreTheirs(wants: Preferences, recipients: seq<Recipient>, keys: set<Key>, j: Job) {
    exists r :: r in recipients && r.id == j.user && j.counts == CountsWanted(wants, r, keys)
  }

  function CountsWanted(wants: Preferences, r: Recipient, keys: set<Key>): EmailCounts {
    Wanted(wants, r.id, CountsFor(r, keys))
  }

  lemma OwedNext(wants: Preferences, reachable: set<string>, recipients: seq<Recipient>, r: Recipient, keys: set<Key>)
    ensures OwedUsers(wants, reachable, recipients + [r], keys) ==
            OwedUsers(wants, reachable, recipients, keys)
            + if HasNews(CountsWanted(wants, r, keys)) && r.id in reachable then {r.id} else {}
  {
  }

  lemma ClaimedNext(jobs: seq<Job>, j: Job, day: int)
    ensures ClaimedBy(jobs + [j], day) == ClaimedBy(jobs, day) + {Claim(j.user, day)}
  {
  }

  lemma UnclaimedNext(users: set<string>, u: string, day: int, deliveries: set<Claim>)
    ensures Unclaimed(users + {u}, day, deliveries) ==
            Unclaimed(users, day, deliveries) + if Claim(u, day) !in deliveries then {Claim(u, day)} else {}
    ensures Unclaimed(users + {}, day, deliveries) == Unclaimed(users, day, deliveries)
  {
  }

  predicate OnePerUser(jobs: seq<Job>) {
    forall i, j :: 0 <= i < j < |jobs| ==> jobs[i].user != jobs[j].user
  }

  lemma OneMoreUser(jobs: seq<Job>, job: Job, day: int)
    requires OnePerUser(jobs) && Claim(job.user, day) !in ClaimedBy(jobs, day)
    ensures OnePerUser(jobs + [job]) && ClaimedBy(jobs + [job], day) == ClaimedBy(jobs, day) + {Claim(job.user, day)}
  {
    ClaimedNext(jobs, job, day);
    forall i | 0 <= i < |jobs| ensures jobs[i].user != job.user {
      assert jobs[i] in jobs;
    }
  }

  /** One recipient of the claim loop, who is owed an email. */
  lemma ClaimStep(owed: set<string>, job: Job, day: int, before: set<Claim>, jobs: seq<Job>)
    requires ClaimedBy(jobs, day) == Unclaimed(owed, day, before)
    ensures Unclaimed(owed + {job.user}, day, before) ==
            if Claim(job.user, day) in before + ClaimedBy(jobs, day) then ClaimedBy(jobs, day)
            else ClaimedBy(jobs + [job], day)
  {
    UnclaimedNext(owed, job.user, day, before);
    ClaimedNext(jobs, job, day);
  }

  datatype Posted = Posted(user: string, notification: Notification)

  function InAppKeys(keys: set<Key>): set<Key> {
    set k | k in keys && k.reason in IN_APP_REASONS
  }

  function PostTo(user: string, sent: seq<Notification>): seq<Posted> {
    seq(|sent|, i requires 0 <= i < |sent| => Posted(user, sent[i]))
  }

  ghost predicate ArePlans(plans: seq<seq<UserAlert>>, recipients: seq<Recipient>, keys: set<Key>) {
    |plans| == |recipients| && forall i :: 0 <= i < |plans| ==> IsPlan(plans[i], recipients[i], keys)
  }

  /** The notifications of all recipients, in turn. */
  ghost function PostsOf(wantsInApp: Preferences, recipients: seq<Recipient>, plans: seq<seq<UserAlert>>): seq<Posted>
    requires |plans| == |recipients|
  {
    if recipients == [] then []
    else
      var n := |recipients| - 1;
      PostsOf(wantsInApp, recipients[..n], plans[..n])
      + PostTo(recipients[n].id, SentTo(wantsInApp, recipients[n].id, plans[n]))
  }

  lemma OneMorePlan(wantsInApp: Preferences, recipients: seq<Recipient>, r: Recipient, plans: seq<seq<UserAlert>>,
                    alerts: seq<UserAlert>, keys: set<Key>)
    requires ArePlans(plans, recipients, keys) && IsPlan(alerts, r, keys)
    ensures ArePlans(plans + [alerts], recipients + [r], keys)
    ensures PostsOf(wantsInApp, recipients + [r], plans + [alerts]) ==
            PostsOf(wantsInApp, recipients, plans) + PostTo(r.id, SentTo(wantsInApp, r.id, alerts))
  {
    var n := |recipients|;
    assert (recipients + [r])[..n] == recipients && (plans + [alerts])[..n] == plans;
    assert (recipients + [r])[n] == r && (plans + [alerts])[n] == alerts;
  }

  lemma {:induction false} NothingToPost(
    wantsInApp: Preferences, recipients: seq<Recipient>, plans: seq<seq<UserAlert>>)
    requires |plans| == |recipients| && forall i :: 0 <= i < |plans| ==> plans[i] == []
    ensures ArePlans(plans, recipients, InAppKeys({})) && PostsOf(wantsInApp, recipients, plans) == []
    decreases |plans|
  {
    forall i | 0 <= i < |plans| ensures IsPlan(plans[i], recipients[i], InAppKeys({})) {
      forall a ensures !IsAlert(a, recipients[i], InAppKeys({})) {
        if a.namespaces == Hits(recipients[i].namespaces, InAppKeys({}), GroupOf(a)) && a.namespaces != [] {
          HitsMembers(recipients[i].namespaces, InAppKeys({}), GroupOf(a), a.namespaces[0]);
        }
      }
    }
    if recipients != [] {
      var n := |recipients| - 1;
      NothingToPost(wantsInApp, recipients[..n], plans[..n]);
    }
  }

  lemma NothingOwed(wants: Preferences, reachable: set<string>, recipients: seq<Recipient>)
    ensures OwedUsers(wants, reachable, recipients, {}) == {}
  {
    forall r | r in recipients ensures !HasNews(CountsWanted(wants, r, {})) {
      assert NewCves(r, {}, Critical) == {} && NewCves(r, {}, CriticalFixable) == {}
             && NewCves(r, {}, Prioritized) == {} && NewCves(r, {}, Visible) == {};
    }
  }

  /** The emails of a run, by user and day. */
  function ClaimList(jobs: seq<Job>, day: int): seq<Claim> {
    seq(|jobs|, i requires 0 <= i < |jobs| => Claim(jobs[i].user, day))
  }

  /** A run that claims for exactly the owed users, one job each, is a step of the daily cap. */
  lemma ClaimsAreSent(before: set<Claim>, after: set<Claim>, run: EmailRun, jobs: seq<Job>, sent: seq<Claim>)
    requires OnePerUser(jobs) && ClaimedBy(jobs, run.day) == ClaimsOf(before, run)
    requires after == Purged(before, run.day) + ClaimsOf(before, run)
    ensures EmailStep(EmailState(before, sent), run, EmailState(after, sent + ClaimList(jobs, run.day)))
  {
    var claims := ClaimList(jobs, run.day);
    assert (sent + claims)[|sent|..] == claims;
    forall c ensures c in claims <==> c in ClaimedBy(jobs, run.day) {
      if j :| j in jobs && c == Claim(j.user, run.day) {
        var i :| 0 <= i < |jobs| && jobs[i] == j;
        assert claims[i] == c;
      }
      if c in claims {
        var i :| 0 <= i < |claims| && claims[i] == c;
        assert jobs[i] in jobs;
      }
    }
  }

  /** The tables of the alert job. */
  class AlertStore {
    var marks: set<Key>
    var deliveries: set<Claim>
    var posted: seq<Posted>

    constructor ()
      ensures marks == {} && deliveries == {} && posted == []
    {
      marks, deliveries, posted := {}, {}, [];
    }

    method PostAlertsTo(wantsInApp: Preferences, r: Recipient, keys: set<Key>) returns (alerts: seq<UserAlert>)
      modifies this`posted
      ensures IsPlan(alerts, r, keys)
      ensures posted == old(posted) + PostTo(r.id, SentTo(wantsInApp, r.id, alerts))
    {
      alerts := PlanUserAlerts(r, keys);
      var sent := SendUserAlerts(wantsInApp, r.id, alerts);
      posted := posted + PostTo(r.id, sent);
    }

    /** The in-app part of `apply_alert_diff`. */
    method PostAlerts(
      wantsInApp: Preferences, recipients: seq<Recipient>, keys: set<Key>) returns (plans: seq<seq<UserAlert>>)
      modifies this`posted
      ensures ArePlans(plans, recipients, keys)
      ensures posted == old(posted) + PostsOf(wantsInApp, recipients, plans)
    {
      plans := [];
      for i := 0 to |recipients|
        invariant ArePlans(plans, recipients[..i], keys)
        invariant posted == old(posted) + PostsOf(wantsInApp, recipients[..i], plans)
      {
        var alerts := PostAlertsTo(wantsInApp, recipients[i], keys);
        assert recipients[..i + 1] == recipients[..i] + [recipients[i]];
        OneMorePlan(wantsInApp, recipients[..i], recipients[i], plans, alerts, keys);
        plans := plans + [alerts];
      }
      assert recipients[..|recipients|] == recipients;
    }

    /** `_claim_alert_emails`: one job and one claim per owed user without a claim today. */
    method ClaimAlertEmails(
      wants: Preferences, reachable: set<string>, recipients: seq<Recipient>, keys: set<Key>, day: int)
      returns (jobs: seq<Job>)
      modifies this`deliveries
      ensures ClaimedBy(jobs, day) == Unclaimed(OwedUsers(wants, reachable, recipients, keys), day, old(deliveries))
      ensures deliveries == old(deliveries) + ClaimedBy(jobs, day)
      ensures forall j :: j in jobs ==> CountsAreTheirs(wants, recipients, keys, j)
      ensures OnePerUser(jobs)
    {
      jobs := [];
      for i := 0 to |recipients|
        invariant ClaimedBy(jobs, day) ==
                Unclaimed(OwedUsers(wants, reachable, recipients[..i], keys), day, old(deliveries))
        invariant deliveries == old(deliveries) + ClaimedBy(jobs, day)
        invariant forall j :: j in jobs ==> CountsAreTheirs(wants, recipients, keys, j)
        invariant OnePerUser(jobs)
      {
        var r := recipients[i];
        assert recipients[..i + 1] == recipients[..i] + [r];
        var counts := CountsWanted(wants, r, keys);
        OwedNext(wants, reachable, recipients[..i], r, keys);
        var job := Job(r.id, counts);
        ClaimStep(OwedUsers(wants, reachable, recipients[..i], keys), job, day, old(deliveries), jobs);
        if HasNews(counts) && r.id in reachable && Claim(r.id, day) !in deliveries {
          OneMoreUser(jobs, job, day);
          assert CountsAreTheirs(wants, recipients, keys, job) by { assert r in recipients; }
          deliveries := deliveries + {Claim(r.id, day)};
          jobs := jobs + [job];
        }
      }
      assert recipients[..|recipients|] == recipients;
    }

    /** `apply_alert_diff`: store the new marks, notify about keys not seen before. */
    method ApplyAlertDiff(
      current: set<Key>, wants: Preferences, wantsInApp: Preferences, reachable: set<string>,
      recipients: seq<Recipient>, day: int)
      returns (notify: set<Key>, plans: seq<seq<UserAlert>>, jobs: seq<Job>)
      modifies this
      ensures marks == NextMarks(old(marks), current)
      ensures notify == NotifyKeys(old(marks), current)
      ensures ArePlans(plans, recipients, InAppKeys(notify))
      ensures posted == old(posted) + PostsOf(wantsInApp, recipients, plans)
      ensures var claims := ClaimsOf(old(deliveries), EmailRun(day, OwedUsers(wants, reachable, recipients, notify)));
        deliveries == Purged(old(deliveries), day) + claims && ClaimedBy(jobs, day) == claims
      ensures OnePerUser(jobs) && forall j :: j in jobs ==> CountsAreTheirs(wants, recipients, notify, j)
      ensures forall sent: seq<Claim> ::
        EmailStep(EmailState(old(deliveries), sent), EmailRun(day, OwedUsers(wants, reachable, recipients, notify)),
                  EmailState(deliveries, sent + ClaimList(jobs, day)))
    {
      var missing := BASELINE_MARKS - marks;
      var existing := marks - BASELINE_MARKS;
      var newKeys := current - existing;
      var stale := existing - current;
      marks := marks + missing - stale + newKeys;
      deliveries := Purged(deliveries, day);
      notify := set k | k in newKeys && BaselineFor(k.reason) !in missing;
      if notify != {} {
        plans := PostAlerts(wantsInApp, recipients, InAppKeys(notify));
        jobs := ClaimAlertEmails(wants, reachable, recipients, notify, day);
      } else {
        plans := seq(|recipients|, i => []);
        jobs := [];
        NothingToPost(wantsInApp, recipients, plans);
        NothingOwed(wants, reachable, recipients);
      }
      var run := EmailRun(day, OwedUsers(wants, reachable, recipients, notify));
      forall sent: seq<Claim>
        ensures EmailStep(EmailState(old(deliveries), sent), run, EmailState(deliveries, sent + ClaimList(jobs, day)))
      {
        ClaimsAreSent(old(deliveries), deliveries, run, jobs, sent);
      }
    }
  }

  // ----- whole runs: marks are rising-edge detectors -----

  ghost predicate ValidRun(run: seq<set<Key>>) {
    forall i :: 0 <= i < |run| ==> run[i] !! BASELINE_MARKS
  }

  ghost function MarksAfter(initial: set<Key>, run: seq<set<Key>>): set<Key> {
    if run == [] then initial else NextMarks(MarksAfter(initial, run[..|run| - 1]), run[|run| - 1])
  }

  /** The keys eligible to notify in the last run of `run`. */
  ghost function LastNotified(initial: set<Key>, run: seq<set<Key>>): set<Key>
    requires run != []
  {
    NotifyKeys(MarksAfter(initial, run[..|run| - 1]), run[|run| - 1])
  }

  /** Adding what is missing and new and deleting what is stale leaves the current keys and
      the baselines, whatever was stored. */
  lemma MarksForgetThePast(marks: set<Key>, current: set<Key>)
    ensures NextMarks(marks, current) == current + BASELINE_MARKS
  {
    forall k ensures k in NextMarks(marks, current) <==> k in current || k in BASELINE_MARKS {
      if k in BASELINE_MARKS {
        assert k !in StaleKeys(marks, current);
      }
    }
  }

  /** After every run the marks are the current keys and the two baselines. */
  lemma MarksAreCurrent(initial: set<Key>, run: seq<set<Key>>)
    requires run != []
    ensures MarksAfter(initial, run) == run[|run| - 1] + BASELINE_MARKS
  {
    var n := |run| - 1;
    MarksForgetThePast(MarksAfter(initial, run[..n]), run[n]);
  }

  /** A key notifies iff it is current now, was not at the run before, and its own baseline
      was stored before: always from the second run on, and in the first run only if the
      initial marks held it. */
  lemma NotifiesOnRisingEdge(initial: set<Key>, run: seq<set<Key>>, key: Key)
    requires run != [] && ValidRun(run)
    ensures var n := |run| - 1;
      key in LastNotified(initial, run) <==>
        key in run[n]
        && (if n > 0 then key !in run[n - 1] else key !in initial && BaselineFor(key.reason) in initial)
  {
    var n := |run| - 1;
    assert BaselineFor(key.reason) in BASELINE_MARKS && run[n] !! BASELINE_MARKS;
    if n > 0 {
      MarksAreCurrent(initial, run[..n]);
      assert run[..n][n - 1] == run[n - 1];
    }
  }

  ghost function Notifications(initial: set<Key>, run: seq<set<Key>>, key: Key): nat {
    if run == [] then 0
    else Notifications(initial, run[..|run| - 1], key) + if key in LastNotified(initial, run) then 1 else 0
  }

  ghost function RisingEdges(run: seq<set<Key>>, key: Key): nat {
    if |run| <= 1 then 0
    else
      var n := |run| - 1;
      RisingEdges(run[..n], key) + if key in run[n] && key !in run[n - 1] then 1 else 0
  }

  /** Over a whole run a key notifies once per rising edge after the baseline. */
  lemma {:induction false} NotificationsAreRisingEdges(initial: set<Key>, run: seq<set<Key>>, key: Key)
    requires run != [] && ValidRun(run)
    ensures Notifications(initial, run, key) ==
            RisingEdges(run, key)
            + if key in run[0] && key !in initial && BaselineFor(key.reason) in initial then 1 else 0
  {
    var n := |run| - 1;
    NotifiesOnRisingEdge(initial, run, key);
    if n > 0 {
      NotificationsAreRisingEdges(initial, run[..n], key);
    } else {
      assert Notifications(initial, run[..0], key) == 0;
    }
  }

  /** Enabling a kind of alert is silent: while its baseline is missing nothing of that kind
      notifies, whatever other marks exist, and from the next run on its rising edges do. */
  lemma FirstRunIsSilent(marks: set<Key>, current: set<Key>, next: set<Key>, key: Key)
    requires BaselineFor(key.reason) !in marks && next !! BASELINE_MARKS
    ensures key !in NotifyKeys(marks, current)
    ensures key in NotifyKeys(NextMarks(marks, current), next) <==> key in next && key !in current
  {
    MarksForgetThePast(marks, current);
    assert BaselineFor(key.reason) in BASELINE_MARKS;
  }
}
