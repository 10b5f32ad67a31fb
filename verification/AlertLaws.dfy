/** What the alert job says to whom, told on the keys themselves
    (services/team_notifications.py). */
module AlertLaws {
  import opened Ordering
  import opened Pairs
  import opened Suppression
  import opened Alerts

  // ----- the keys of a candidate -----

  /** Whether an unsuppressed row of the CVE at this location has the property. */
  ghost predicate SomeRow(
    glob: Glob, rows: seq<Candidate>, cveRules: seq<CveRule>, componentRules: seq<ComponentRule>, cveId: string,
    loc: Pair, p: Candidate -> bool)
  {
    exists c :: c in rows && c.cveId == cveId && c.row.loc == loc && p(c)
      && !LocationSuppressed(glob, cveRules, componentRules, cveId, c.row)
  }

  /** The four keys a location of a CVE can have, and when it has each. */
  lemma KeysAre(
    glob: Glob, rows: seq<Candidate>, prioritized: set<string>, cveRules: seq<CveRule>,
    componentRules: seq<ComponentRule>, cveId: string, loc: Pair, reason: Reason)
    ensures Alertworthy(glob, rows, prioritized, cveRules, componentRules, Key(cveId, loc, reason)) <==>
            match reason
            case Visible =>
              cveId !in prioritized && SomeRow(glob, rows, cveRules, componentRules, cveId, loc, (c: Candidate) => true)
            case Prioritized =>
              cveId in prioritized && SomeRow(glob, rows, cveRules, componentRules, cveId, loc, (c: Candidate) => true)
            case Critical =>
              SomeRow(glob, rows, cveRules, componentRules, cveId, loc, (c: Candidate) => c.severity == 4)
            case CriticalFixable =>
              SomeRow(glob, rows, cveRules, componentRules, cveId, loc,
                      (c: Candidate) => c.severity == 4 && c.fixable)
            case _ => false
  {
    var key := Key(cveId, loc, reason);
    if c :| c in rows && !LocationSuppressed(glob, cveRules, componentRules, c.cveId, c.row)
            && key in KeysOf(c, prioritized) {
      assert c.cveId == cveId && c.row.loc == loc;
    }
    if c :| c in rows && c.cveId == cveId && c.row.loc == loc
            && !LocationSuppressed(glob, cveRules, componentRules, cveId, c.row) && key in KeysOf(c, prioritized) {
      assert Alertworthy(glob, rows, prioritized, cveRules, componentRules, key);
    }
    forall c | c in rows && c.cveId == cveId && c.row.loc == loc
      ensures key in KeysOf(c, prioritized) <==>
              match reason
              case Visible => cveId !in prioritized
              case Prioritized => cveId in prioritized
              case Critical => c.severity == 4
              case CriticalFixable => c.severity == 4 && c.fixable
              case _ => false
    {
    }
  }

  /** The critical conditions share one baseline, everything else the other. */
  lemma BaselinesAre(reason: Reason)
    ensures BaselineFor(reason) in BASELINE_MARKS
    ensures BaselineFor(reason).reason.EmailBaseline? <==> reason == Critical || reason == CriticalFixable
  {
  }

  // ----- emails -----

  ghost function KeysInView(r: Recipient, keys: set<Key>): set<Key> {
    if r.seesAll then keys else set k | k in keys && k.loc in r.namespaces
  }

  ghost function CvesWith(keys: set<Key>, reason: Reason): set<string> {
    set k | k in keys && k.reason == reason :: k.cveId
  }

  /** The number of CVEs if the recipient wants to hear of them. */
  ghost function Count(wanted: bool, cves: set<string>): nat {
    if wanted then |cves| else 0
  }

  /** The counts of an email are those of the keys the recipient may see, condition by
      condition, each only when wanted. */
  lemma CountsAreInView(wants: Preferences, r: Recipient, keys: set<Key>)
    ensures var c, seen := CountsWanted(wants, r, keys), KeysInView(r, keys);
      && c.newCritical == Count(wants(r.id, Critical), CvesWith(seen, Critical))
      && c.criticalFixable == Count(wants(r.id, CriticalFixable), CvesWith(seen, CriticalFixable))
      && c.prioritized == Count(wants(r.id, Prioritized), CvesWith(seen, Prioritized))
      && c.newRelevant == Count(wants(r.id, Visible), CvesWith(seen, Visible))
  {
    forall reason ensures NewCves(r, keys, reason) == CvesWith(KeysInView(r, keys), reason) {
      SameCves(r, keys, reason);
    }
  }

  lemma SameCves(r: Recipient, keys: set<Key>, reason: Reason)
    ensures NewCves(r, keys, reason) == CvesWith(KeysInView(r, keys), reason)
  {
  }

  /** A key the recipient may see and wants to hear of. */
  predicate IsNews(wants: Preferences, r: Recipient, k: Key) {
    && (r.seesAll || k.loc in r.namespaces)
    && (k.reason == Critical || k.reason == CriticalFixable || k.reason == Prioritized || k.reason == Visible)
    && wants(r.id, k.reason)
  }

  /** There is news for a recipient iff some key is. */
  lemma NewsIff(wants: Preferences, r: Recipient, keys: set<Key>)
    ensures HasNews(CountsWanted(wants, r, keys)) <==> exists k :: k in keys && IsNews(wants, r, k)
  {
    CountsAreInView(wants, r, keys);
    var seen := KeysInView(r, keys);
    forall reason: Reason ensures |CvesWith(seen, reason)| > 0 <==> exists k :: k in seen && k.reason == reason {
      CountedIff(seen, reason);
    }
    forall k | k in keys && IsNews(wants, r, k) ensures HasNews(CountsWanted(wants, r, keys)) {
      assert k in seen;
    }
    if HasNews(CountsWanted(wants, r, keys)) {
      var reason :| wants(r.id, reason) && |CvesWith(seen, reason)| > 0
        && (reason == Critical || reason == CriticalFixable || reason == Prioritized || reason == Visible);
      var k :| k in seen && k.reason == reason;
      assert k in keys && IsNews(wants, r, k);
    }
  }

  lemma CountedIff(keys: set<Key>, reason: Reason)
    ensures |CvesWith(keys, reason)| > 0 <==> exists k :: k in keys && k.reason == reason
  {
    var cves := CvesWith(keys, reason);
    if k :| k in keys && k.reason == reason {
      assert k.cveId in cves;
    }
    if cves != {} {
      var id :| id in cves;
      var k :| k in keys && k.reason == reason && k.cveId == id;
    }
  }

  /** Exactly the reachable recipients with news are owed an email. */
  lemma OwedIff(wants: Preferences, reachable: set<string>, recipients: seq<Recipient>, keys: set<Key>, user: string)
    ensures user in OwedUsers(wants, reachable, recipients, keys) <==>
            user in reachable
            && exists r, k :: r in recipients && r.id == user && k in keys && IsNews(wants, r, k)
  {
    forall r | r in recipients
      ensures HasNews(CountsWanted(wants, r, keys)) <==> exists k :: k in keys && IsNews(wants, r, k)
    {
      NewsIff(wants, r, keys);
    }
  }

  // ----- in-app alerts -----

  /** A plan lists prioritized CVEs before the others, and each group by CVE. */
  lemma PlanIsOrdered(alerts: seq<UserAlert>, r: Recipient, newKeys: set<Key>, i: nat, j: nat)
    requires IsPlan(alerts, r, newKeys) && i < j < |alerts|
    ensures alerts[j].reason == Prioritized ==> alerts[i].reason == Prioritized
    ensures (alerts[i].reason == Prioritized <==> alerts[j].reason == Prioritized) ==>
              StrLe(alerts[i].cveId, alerts[j].cveId)
  {
    assert AlertLe(alerts[i], alerts[j]);
  }

  /** An org-wide user is alerted of nothing; anyone else of exactly the CVEs and reasons that
      a namespace of theirs has, each with those of their namespaces that do. */
  lemma PlanIsInView(alerts: seq<UserAlert>, r: Recipient, newKeys: set<Key>, cveId: string, reason: Reason)
    requires IsPlan(alerts, r, newKeys)
    ensures (exists a :: a in alerts && a.cveId == cveId && a.reason == reason) <==>
            !r.seesAll && exists l :: l in r.namespaces && Key(cveId, l, reason) in newKeys
    ensures forall a, l :: a in alerts ==>
              (l in a.namespaces <==> l in r.namespaces && Key(a.cveId, l, a.reason) in newKeys)
  {
    forall a, l | a in alerts
      ensures l in a.namespaces <==> l in r.namespaces && Key(a.cveId, l, a.reason) in newKeys
    {
      PlacesAre(alerts, r, newKeys, a, l);
    }
    var alert := UserAlert(cveId, reason, Hits(r.namespaces, newKeys, AlertGroup(cveId, reason)));
    if a :| a in alerts && a.cveId == cveId && a.reason == reason {
      assert IsAlert(a, r, newKeys);
      PlacesAre(alerts, r, newKeys, a, a.namespaces[0]);
    }
    if l :| !r.seesAll && l in r.namespaces && Key(cveId, l, reason) in newKeys {
      HitsMembers(r.namespaces, newKeys, AlertGroup(cveId, reason), l);
      assert IsAlert(alert, r, newKeys) && alert in alerts;
    }
  }

  lemma PlacesAre(alerts: seq<UserAlert>, r: Recipient, newKeys: set<Key>, a: UserAlert, l: Pair)
    requires IsPlan(alerts, r, newKeys) && a in alerts
    ensures l in a.namespaces <==> l in r.namespaces && Key(a.cveId, l, a.reason) in newKeys
  {
    assert IsAlert(a, r, newKeys);
    HitsMembers(r.namespaces, newKeys, GroupOf(a), l);
  }

  /** What a wanted reason sends: up to ten notifications, one for each of its alerts with its
      CVE and namespaces; beyond that a single one with their number. */
  lemma SentIs(wanted: bool, alerts: seq<UserAlert>, reason: Reason)
    ensures var sent := SentFor(wanted, alerts, reason);
      var mine := Filter(alerts, (a: UserAlert) => a.reason == reason);
      if !wanted || mine == [] then sent == []
      else if |mine| <= 10 then
        |sent| == |mine| && forall i :: 0 <= i < |mine| ==> sent[i] == Single(reason, mine[i].cveId, mine[i].namespaces)
      else
        && |sent| == 1 && sent[0].Summary? && sent[0].reason == reason && sent[0].count == |mine|
        && Sorted(sent[0].scope, ByNamespace) && Distinct(sent[0].scope)
  {
    var mine := OfReason(alerts, reason);
    FilterMembers(alerts, (a: UserAlert) => a.reason == reason);
    assert forall i :: 0 <= i < |mine| ==> mine[i] in mine;
    PairOrders();
    SortedOfCanonical(ScopesOf(mine), ByNamespace);
  }

  /** Nobody is told of a place that is not theirs. */
  lemma NotificationsAreInView(
    wants: Preferences, r: Recipient, newKeys: set<Key>, alerts: seq<UserAlert>, n: Notification, l: Pair)
    requires IsPlan(alerts, r, newKeys) && n in SentTo(wants, r.id, alerts) && l in n.scope
    ensures l in r.namespaces && exists k :: k in newKeys && k.loc == l && k.reason == n.reason
  {
    var reason := n.reason;
    var sent := SentFor(wants(r.id, reason), alerts, reason);
    ReasonOfSent(wants, r.id, alerts, n);
    assert Mentions(sent, reason, l);
    CapDropsNoLocation(wants(r.id, reason), alerts, reason, l);
    var a :| a in alerts && a.reason == reason && l in a.namespaces;
    PlacesAre(alerts, r, newKeys, a, l);
    assert Key(a.cveId, l, reason) in newKeys;
  }

  lemma ReasonOfSent(wants: Preferences, user: string, alerts: seq<UserAlert>, n: Notification)
    requires n in SentTo(wants, user, alerts)
    ensures n in SentFor(wants(user, n.reason), alerts, n.reason)
  {
    SentIs(wants(user, Visible), alerts, Visible);
    SentIs(wants(user, Prioritized), alerts, Prioritized);
  }

  // ----- a whole run -----

  /** A namespace of the recipient's own has a new key of the reason. */
  ghost predicate HasNewKey(r: Recipient, keys: set<Key>, reason: Reason, l: Pair) {
    !r.seesAll && l in r.namespaces && exists k :: k in keys && k.loc == l && k.reason == reason
  }

  lemma MentionsBoth(a: seq<Notification>, b: seq<Notification>, reason: Reason, l: Pair)
    ensures Mentions(a + b, reason, l) <==> Mentions(a, reason, l) || Mentions(b, reason, l)
  {
    if n :| n in a + b && n.reason == reason && l in n.scope {
      assert n in a || n in b;
    }
    if n :| n in a && n.reason == reason && l in n.scope {
      assert n in a + b;
    }
    if n :| n in b && n.reason == reason && l in n.scope {
      assert n in a + b;
    }
  }

  lemma OnlyItsReason(wanted: bool, alerts: seq<UserAlert>, sentAs: Reason, reason: Reason, l: Pair)
    requires sentAs != reason
    ensures !Mentions(SentFor(wanted, alerts, sentAs), reason, l)
  {
    SentIs(wanted, alerts, sentAs);
  }

  lemma SomeAlertIff(alerts: seq<UserAlert>, r: Recipient, keys: set<Key>, reason: Reason, l: Pair)
    requires IsPlan(alerts, r, keys)
    ensures (exists a :: a in alerts && a.reason == reason && l in a.namespaces) <==> HasNewKey(r, keys, reason, l)
  {
    if a :| a in alerts && a.reason == reason && l in a.namespaces {
      PlacesAre(alerts, r, keys, a, l);
      assert IsAlert(a, r, keys);
      assert Key(a.cveId, l, reason) in keys;
    }
    if k :| !r.seesAll && l in r.namespaces && k in keys && k.loc == l && k.reason == reason {
      assert k == Key(k.cveId, l, reason);
      PlanIsInView(alerts, r, keys, k.cveId, reason);
      var a :| a in alerts && a.cveId == k.cveId && a.reason == reason;
      PlacesAre(alerts, r, keys, a, l);
    }
  }

  /** One recipient is told of a place, for a reason shown in the app, iff they want to be and
      one of their own namespaces is that place and has a new key of the reason. */
  lemma ToldOne(wants: Preferences, r: Recipient, keys: set<Key>, alerts: seq<UserAlert>, reason: Reason, l: Pair)
    requires IsPlan(alerts, r, InAppKeys(keys))
    ensures Mentions(SentTo(wants, r.id, alerts), reason, l) <==>
            && wants(r.id, reason) && (reason == Visible || reason == Prioritized)
            && HasNewKey(r, keys, reason, l)
  {
    var one := SentFor(wants(r.id, Visible), alerts, Visible);
    var two := SentFor(wants(r.id, Prioritized), alerts, Prioritized);
    MentionsBoth(one, two, reason, l);
    if reason != Visible { OnlyItsReason(wants(r.id, Visible), alerts, Visible, reason, l); }
    if reason != Prioritized { OnlyItsReason(wants(r.id, Prioritized), alerts, Prioritized, reason, l); }
    CapDropsNoLocation(wants(r.id, reason), alerts, reason, l);
    SomeAlertIff(alerts, r, InAppKeys(keys), reason, l);
    InAppKeysAre(r, keys, reason, l);
  }

  lemma InAppKeysAre(r: Recipient, keys: set<Key>, reason: Reason, l: Pair)
    ensures reason == Visible || reason == Prioritized ==>
              (HasNewKey(r, InAppKeys(keys), reason, l) <==> HasNewKey(r, keys, reason, l))
  {
    if reason == Visible || reason == Prioritized {
      assert forall k: Key :: k.reason == reason ==> (k in InAppKeys(keys) <==> k in keys);
    }
  }

  /** Some notification tells the user of the place for the reason. */
  ghost predicate IsTold(posts: seq<Posted>, user: string, reason: Reason, l: Pair) {
    exists p :: p in posts && p.user == user && p.notification.reason == reason && l in p.notification.scope
  }

  lemma ToldByEither(a: seq<Posted>, b: seq<Posted>, user: string, reason: Reason, l: Pair)
    ensures IsTold(a + b, user, reason, l) <==> IsTold(a, user, reason, l) || IsTold(b, user, reason, l)
  {
    if p :| p in a + b && p.user == user && p.notification.reason == reason && l in p.notification.scope {
      assert p in a || p in b;
    }
    if p :| p in a && p.user == user && p.notification.reason == reason && l in p.notification.scope {
      assert p in a + b;
    }
    if p :| p in b && p.user == user && p.notification.reason == reason && l in p.notification.scope {
      assert p in a + b;
    }
  }

  lemma PostedTo(recipient: string, sent: seq<Notification>, user: string, reason: Reason, l: Pair)
    ensures IsTold(PostTo(recipient, sent), user, reason, l) <==> recipient == user && Mentions(sent, reason, l)
  {
    var posts := PostTo(recipient, sent);
    if p :| p in posts && p.user == user && p.notification.reason == reason && l in p.notification.scope {
      var i :| 0 <= i < |posts| && posts[i] == p;
      assert sent[i] in sent;
    }
    if n :| recipient == user && n in sent && n.reason == reason && l in n.scope {
      var i :| 0 <= i < |sent| && sent[i] == n;
      assert posts[i] in posts;
    }
  }

  ghost predicate SomeRecipient(recipients: seq<Recipient>, user: string, keys: set<Key>, reason: Reason, l: Pair) {
    exists r :: r in recipients && r.id == user && HasNewKey(r, keys, reason, l)
  }

  lemma SomeRecipientLast(front: seq<Recipient>, r: Recipient, user: string, keys: set<Key>, reason: Reason, l: Pair)
    ensures SomeRecipient(front + [r], user, keys, reason, l) <==>
            SomeRecipient(front, user, keys, reason, l) || (r.id == user && HasNewKey(r, keys, reason, l))
  {
    if x :| x in front && x.id == user && HasNewKey(x, keys, reason, l) {
      assert x in front + [r];
    }
    assert r in front + [r];
  }

  /** A run tells a user of exactly the places of their own that have a new key of a reason
      they want in the app, prioritized or not. */
  lemma {:induction false} ToldIff(
    wants: Preferences, recipients: seq<Recipient>, plans: seq<seq<UserAlert>>, keys: set<Key>, user: string,
    reason: Reason, l: Pair)
    requires ArePlans(plans, recipients, InAppKeys(keys))
    ensures IsTold(PostsOf(wants, recipients, plans), user, reason, l) <==>
            && wants(user, reason) && (reason == Visible || reason == Prioritized)
            && SomeRecipient(recipients, user, keys, reason, l)
    decreases |recipients|
  {
    if |recipients| > 0 {
      var n := |recipients| - 1;
      var r, before := recipients[n], PostsOf(wants, recipients[..n], plans[..n]);
      var sent := SentTo(wants, r.id, plans[n]);
      ToldIff(wants, recipients[..n], plans[..n], keys, user, reason, l);
      ToldOne(wants, r, keys, plans[n], reason, l);
      PostedTo(r.id, sent, user, reason, l);
      ToldByEither(before, PostTo(r.id, sent), user, reason, l);
      SomeRecipientLast(recipients[..n], r, user, keys, reason, l);
      assert recipients == recipients[..n] + [r];
    }
  }
}
