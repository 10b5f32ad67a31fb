/** When the daily subscription email is sent and what it counts, told on the claims and
    events of a run (services/cve_subscription_service.py). */
module DigestLaws {
  import opened Days
  import opened SubscriptionDigest

  /** Where the window of the next email begins. */
  ghost predicate IsCursor(d: Digest, now: nat, cursor: int) {
    if d.deliveries == {} then cursor == now - 24 * 3600
    else (exists t :: t in d.deliveries && t == cursor) && forall t :: t in d.deliveries ==> t <= cursor
  }

  lemma CursorIs(d: Digest, now: nat)
    ensures IsCursor(d, now, Cursor(d, now))
  {
    if d.deliveries != {} {
      assert IsLatest(Latest(d.deliveries), d.deliveries);
    }
  }

  /** The visible events of the window. */
  ghost function NewsOf(r: Run, cursor: int): set<Event> {
    set e | e in r.events && cursor < e.createdAt <= r.now && e.visible
  }

  /** A run emails iff the user wants mail, has none today, can be reached, and something
      visible happened since the cursor; the email counts these events and their CVEs. */
  lemma EmailIff(d: Digest, r: Run, cursor: int)
    requires IsCursor(d, r.now, cursor)
    ensures var news := NewsOf(r, cursor);
      Next(d, r).sent == d.sent +
        if r.wants && r.reachable && news != {} && forall t :: t in d.deliveries ==> DayOf(t) != DayOf(r.now) then
          [Email(cursor, r.now, |news|, |set e | e in news :: e.cveId|)]
        else []
  {
    CursorIs(d, r.now);
    assert Cursor(d, r.now) == cursor;
    assert InWindow(r.events, cursor, r.now) == NewsOf(r, cursor);
    if !Claims(d, r) {
      assert d.sent + [] == d.sent;
    }
  }

  lemma CutoffIsThirtyDays(now: nat)
    ensures DayOf(Cutoff(now)) == DayOf(now) - 30
  {
  }

  /** Claims are kept for 30 days, and a new one is the time of the email. */
  lemma ClaimsAre(d: Digest, r: Run, t: nat)
    ensures t in Next(d, r).deliveries <==>
            DayOf(t) >= DayOf(r.now) - 30 && (t in d.deliveries || (t == r.now && Next(d, r).sent != d.sent))
  {
    CutoffIsThirtyDays(r.now);
  }

  /** Nobody gets two of these emails on one day. */
  lemma {:induction false} OneADay(states: seq<Digest>, runs: seq<Run>, k: nat, i: nat, j: nat)
    requires Trace(states, runs) && k <= |runs| && i < j < |states[k].sent|
    ensures DayOf(states[k].sent[i].upTo) != DayOf(states[k].sent[j].upTo)
  {
    if k > 0 {
      var d, r := states[k - 1], runs[k - 1];
      assert states[k] == Next(d, r);
      if j < |d.sent| {
        OneADay(states, runs, k - 1, i, j);
      } else if k > 1 {
        RunKeepsInv(states, runs, k - 1);
        LastEmailIsEarlier(d, runs[k - 2].now, r, i);
      }
    }
  }

  lemma LastEmailIsEarlier(d: Digest, before: nat, r: Run, i: nat)
    requires Inv(d, before) && before <= r.now && Claims(d, r) && i < |d.sent|
    ensures DayOf(d.sent[i].upTo) != DayOf(r.now)
  {
    var last := LastOf(d.sent);
    LastIsLatest(d.sent, i);
    CutoffIsThirtyDays(before);
    DayMonotone(before, r.now);
    DayMonotone(d.sent[i].upTo, last);
    if last in d.deliveries {
      assert DayOf(last) != DayOf(r.now);
      DayMonotone(last, r.now);
    }
  }
}
