/** What the daily notification summary counts, whom it emails and what it leaves, told on
    the queue and the rows (services/notification_summary_service.py). */
module NotificationLaws {
  import opened Wrappers
  import opened Ordering
  import opened DailyCap
  import opened Days
  import opened NotificationSummary

  // ----- counts -----

  /** The positions in `s` whose element has the property. */
  ghost function Positions<T>(s: seq<T>, p: T -> bool): set<nat> {
    set i: nat | i < |s| && p(s[i])
  }

  lemma {:induction false} FilterIsPositions<T>(s: seq<T>, p: T -> bool)
    ensures |Filter(s, p)| == |Positions(s, p)|
    decreases |s|
  {
    if s != [] {
      FilterIsPositions(s[1..], p);
      var tail, all := Positions(s[1..], p), Positions(s, p);
      ShiftedPositions(s, p);
      ShiftKeepsSize(tail);
    }
  }

  function Shifted(s: set<nat>): set<nat> {
    set i: nat | i in s :: i + 1
  }

  lemma ShiftedPositions<T>(s: seq<T>, p: T -> bool)
    requires s != []
    ensures Positions(s, p) == Shifted(Positions(s[1..], p)) + if p(s[0]) then {0} else {}
    ensures 0 !in Shifted(Positions(s[1..], p))
  {
    forall i | i in Positions(s, p) && i > 0 ensures i in Shifted(Positions(s[1..], p)) {
      assert i - 1 in Positions(s[1..], p);
    }
  }

  lemma {:induction false} ShiftKeepsSize(s: set<nat>)
    ensures |Shifted(s)| == |s|
    decreases s
  {
    if s != {} {
      var x :| x in s;
      ShiftKeepsSize(s - {x});
      ShiftOne(s, x);
    }
  }

  lemma ShiftOne(s: set<nat>, x: nat)
    requires x in s
    ensures x + 1 !in Shifted(s - {x}) && Shifted(s) == Shifted(s - {x}) + {x + 1}
  {
    forall i: nat ensures i in Shifted(s) <==> i in Shifted(s - {x}) || i == x + 1 {
      assert i in Shifted(s) <==> i > 0 && (i - 1) as nat in s;
      assert i in Shifted(s - {x}) <==> i > 0 && (i - 1) as nat in s - {x};
    }
  }

  lemma {:induction false} OccurrencesArePositions(keys: seq<string>, key: string)
    ensures multiset(keys)[key] == |Positions(keys, (k: string) => k == key)|
    decreases |keys|
  {
    if keys != [] {
      OccurrencesArePositions(keys[1..], key);
      assert keys == [keys[0]] + keys[1..];
      ShiftedPositions(keys, (k: string) => k == key);
      ShiftKeepsSize(Positions(keys[1..], (k: string) => k == key));
    }
  }

  /** The overdue remediations of a recipient: created by them or assigned to them, at a
      location they may see. */
  ghost function OverdueOf(r: Recipient, overdue: seq<Overdue>): set<nat> {
    set i: nat | i < |overdue|
      && (overdue[i].createdBy == r.id || overdue[i].assignedTo == Some(r.id))
      && (r.seesAll || overdue[i].pair in r.namespaces)
  }

  lemma OverdueIsCounted(r: Recipient, overdue: seq<Overdue>)
    ensures OverdueCount(r, overdue) == |OverdueOf(r, overdue)|
  {
    FilterIsPositions(overdue, o => IsTheirs(r, o));
    assert Positions(overdue, o => IsTheirs(r, o)) == OverdueOf(r, overdue);
  }

  /** The counts of a summary: live counts of overdue remediations and of expiring
      acceptances when wanted, else how often each message of a wanted category is queued. */
  lemma CountsAre(
    wants: Preferences, categories: Categories, r: Recipient, keys: seq<string>, overdue: seq<Overdue>,
    expiring: map<string, nat>, key: string)
    ensures var counts := CountsOf(wants, categories, r, keys, overdue, expiring);
      if key == "risk_expiring" && r.id in expiring && expiring[r.id] > 0 && wants(r.id, "risk_acceptance_updates") then
        key in counts && counts[key] == expiring[r.id]
      else if key == "remediation_overdue" && wants(r.id, "remediation") && OverdueOf(r, overdue) != {} then
        key in counts && counts[key] == |OverdueOf(r, overdue)|
      else
        && (key in counts <==> key in keys && categories(key).Some? && wants(r.id, categories(key).value))
        && (key in counts ==> counts[key] == |Positions(keys, (k: string) => k == key)|)
  {
    OverdueIsCounted(r, overdue);
    OccurrencesArePositions(keys, key);
  }

  // ----- emails -----

  /** The email a recipient would get. */
  lemma EmailIs(inputs: Inputs, read: seq<(nat, Queued)>, day: int, r: Recipient, id: nat)
    ensures var e := EmailFor(inputs, read, day, r);
      && e.user == r.id && e.day == day
      && e.counts == CountsOf(inputs.wants, inputs.categories, r, KeysOf(read, r.id), inputs.overdue, inputs.expiring)
      && (id in e.from <==> exists q :: (id, q) in read && q.user == r.id)
  {
    EventsOfUser(read, r.id, id);
    KeysAreMessages(read, r.id);
  }

  /** The message keys queued for a user, in the order read. */
  function KeysOf(read: seq<(nat, Queued)>, user: string): seq<string> {
    if read == [] then []
    else (if read[0].1.user == user then [read[0].1.messageKey] else []) + KeysOf(read[1..], user)
  }

  lemma {:induction false} KeysAreMessages(read: seq<(nat, Queued)>, user: string)
    ensures MessageKeys(EventsOf(read, user)) == KeysOf(read, user)
  {
    if read != [] {
      KeysAreMessages(read[1..], user);
      var rest := EventsOf(read[1..], user);
      assert EventsOf(read, user) == (if read[0].1.user == user then [read[0]] else []) + rest;
    }
  }

  /** An email is planned for exactly the recipients without one today who can be reached and
      have something to count, and it is theirs. */
  lemma {:induction false} EmailedIff(
    inputs: Inputs, read: seq<(nat, Queued)>, day: int, recipients: seq<Recipient>, e: Email)
    ensures e in PlanFor(inputs, read, day, recipients).emails <==>
            exists r :: r in recipients && Earns(inputs, read, day, r, e)
    decreases |recipients|
  {
    if recipients != [] {
      var n := |recipients| - 1;
      EmailedIff(inputs, read, day, recipients[..n], e);
      EmailedLast(inputs, read, day, recipients, e);
      assert recipients == recipients[..n] + [recipients[n]];
    }
  }

  predicate Earns(inputs: Inputs, read: seq<(nat, Queued)>, day: int, r: Recipient, e: Email) {
    && e == EmailFor(inputs, read, day, r)
    && r.id !in inputs.sentToday && r.id in inputs.reachable && e.counts != map[]
  }

  lemma EmailedLast(inputs: Inputs, read: seq<(nat, Queued)>, day: int, recipients: seq<Recipient>, e: Email)
    requires recipients != []
    ensures var n := |recipients| - 1;
      e in PlanFor(inputs, read, day, recipients).emails <==>
      e in PlanFor(inputs, read, day, recipients[..n]).emails || Earns(inputs, read, day, recipients[n], e)
  {
  }

  // ----- the commit -----

  /** A commit keeps exactly the events that were not evaluated and are at most 14 days old,
      and the claims of the last 30 days with those of its own emails. */
  lemma CommitLeaves(s: System, id: nat, c: Claim)
    requires s.phase.Planned?
    ensures var t, now, plan := Next(s, Commit), s.phase.now, s.phase.plan;
      && (id in t.queue <==>
            id in s.queue && id !in plan.consumed && s.queue[id].createdAt >= now - 14 * 24 * 3600)
      && (id in t.queue ==> t.queue[id] == s.queue[id])
      && (c in t.deliveries <==>
            (c in s.deliveries && c.day >= DayOf(now) - 30)
            || exists e :: e in plan.emails && c == Claim(e.user, e.day))
      && t.sent == s.sent + plan.emails && t.phase == Idle
  {
    var emails := s.phase.plan.emails;
    if e :| e in emails && c == Claim(e.user, e.day) {
      var i :| 0 <= i < |emails| && emails[i] == e;
      assert Claims(emails)[i] == c;
    }
    if c in Claims(emails) {
      var i :| 0 <= i < |emails| && Claims(emails)[i] == c;
      assert emails[i] in emails;
    }
  }
}
