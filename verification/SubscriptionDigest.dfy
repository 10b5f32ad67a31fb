/** The daily subscription summary of one user (services/cve_subscription_service.py,
    `run_subscription_email_digest`): a cursor over events instead of a queue. Times are
    seconds. */
module SubscriptionDigest {
  import opened Wrappers
  import opened Days

  const EVENT_RETENTION_DAYS := 30
  const EMAIL_DEFAULT_WINDOW := SECONDS_PER_DAY

  /** A stored event of the user: its time, its CVE, and whether they may still see it. */
  datatype Event = Event(id: nat, cveId: string, createdAt: int, visible: bool)

  /** The emails sent, each with the window of events it counted. */
  datatype Email = Email(after: int, upTo: int, eventCount: nat, cveCount: nat)

  /** Send times of the stored delivery claims; a claim belongs to the day of its time. */
  datatype Digest = Digest(deliveries: set<nat>, sent: seq<Email>)

  /** What one run finds: the time, whether the user wants mail and can be reached, and the
      events stored by then. */
  datatype Run = Run(now: nat, wants: bool, reachable: bool, events: set<Event>)

  ghost predicate IsLatest(m: nat, times: set<nat>) {
    m in times && forall t :: t in times ==> t <= m
  }

  lemma LatestExists(times: set<nat>)
    requires times != {}
    ensures exists m :: IsLatest(m, times)
  {
    var x :| x in times;
    var m := x;
    var rest := times - {x};
    while rest != {}
      invariant m in times && rest <= times
      invariant forall t :: t in times && t !in rest ==> t <= m
      decreases rest
    {
      var t :| t in rest;
      if t > m { m := t; }
      rest := rest - {t};
    }
    assert IsLatest(m, times);
  }

  ghost function Latest(times: set<nat>): (m: nat)
    requires times != {}
    ensures IsLatest(m, times)
  {
    LatestExists(times);
    var m :| IsLatest(m, times);
    m
  }

  /** `_plan_subscription_email`: the events after the cursor, up to now. */
  ghost function Cursor(d: Digest, now: nat): int {
    if d.deliveries == {} then now - EMAIL_DEFAULT_WINDOW else Latest(d.deliveries)
  }

  function InWindow(events: set<Event>, after: int, upTo: int): set<Event> {
    set e | e in events && after < e.createdAt <= upTo && e.visible
  }

  ghost predicate SentToday(d: Digest, now: nat) {
    exists t :: t in d.deliveries && DayOf(t) == DayOf(now)
  }

  ghost predicate Claims(d: Digest, r: Run) {
    r.wants && !SentToday(d, r.now) && InWindow(r.events, Cursor(d, r.now), r.now) != {} && r.reachable
  }

  function Cutoff(now: nat): int {
    now - EVENT_RETENTION_DAYS * SECONDS_PER_DAY
  }

  function Kept(deliveries: set<nat>, now: nat): set<nat> {
    set t | t in deliveries && DayOf(t) >= DayOf(Cutoff(now))
  }

  function EmailOf(events: set<Event>, after: int, upTo: int): Email {
    var news := InWindow(events, after, upTo);
    Email(after, upTo, |news|, |set e | e in news :: e.cveId|)
  }

  ghost function Next(d: Digest, r: Run): Digest {
    if Claims(d, r) then
      Digest(Kept(d.deliveries + {r.now}, r.now), d.sent + [EmailOf(r.events, Cursor(d, r.now), r.now)])
    else Digest(Kept(d.deliveries, r.now), d.sent)
  }

  /** The loop body of `run_subscription_email_digest` for one user, and the purges. */
  method RunDigest(deliveries: set<nat>, r: Run, ghost d: Digest)
    returns (newDeliveries: set<nat>, newEvents: set<Event>, email: Option<Email>)
    requires d.deliveries == deliveries
    ensures newDeliveries == Next(d, r).deliveries
    ensures Next(d, r).sent == d.sent + match email case None => [] case Some(e) => [e]
    ensures newEvents == set e | e in r.events && e.createdAt >= Cutoff(r.now)
  {
    newDeliveries, email := deliveries, None;
    var sentToday := exists t :: t in deliveries && DayOf(t) == DayOf(r.now);
    if r.wants && !sentToday {
      var cursor: int := r.now - EMAIL_DEFAULT_WINDOW;
      if deliveries != {} {
        cursor := MaxTime(deliveries);
      }
      if InWindow(r.events, cursor, r.now) != {} && r.reachable {
        newDeliveries := newDeliveries + {r.now};
        email := Some(EmailOf(r.events, cursor, r.now));
      }
    }
    newEvents := set e | e in r.events && e.createdAt >= Cutoff(r.now);
    newDeliveries := Kept(newDeliveries, r.now);
    assert d.sent + [] == d.sent;
  }

  /** `func.max(sent_at)` */
  method MaxTime(times: set<nat>) returns (m: nat)
    requires times != {}
    ensures m == Latest(times)
  {
    var first :| first in times;
    m := first;
    var rest := times - {first};
    while rest != {}
      invariant rest <= times && m in times
      invariant forall t :: t in times && t !in rest ==> t <= m
      decreases rest
    {
      var t :| t in rest;
      if t > m { m := t; }
      rest := rest - {t};
    }
    assert IsLatest(m, times);
  }

  // ----- whole runs with a clock that does not go back -----

  ghost predicate Trace(states: seq<Digest>, runs: seq<Run>) {
    && |states| == |runs| + 1 && states[0] == Digest({}, [])
    && (forall i :: 0 <= i < |runs| ==> states[i + 1] == Next(states[i], runs[i]))
    && (forall i, j :: 0 <= i < j < |runs| ==> runs[i].now <= runs[j].now)
  }

  ghost predicate Windows(sent: seq<Email>) {
    && (forall i :: 0 <= i < |sent| ==> sent[i].after < sent[i].upTo)
    && (forall i, j :: 0 <= i < j < |sent| ==> sent[i].upTo <= sent[j].after)
  }

  /** The last email is either the latest stored delivery, or purged with all others. */
  ghost predicate Inv(d: Digest, now: nat) {
    && Windows(d.sent)
    && (forall i :: 0 <= i < |d.sent| ==> d.sent[i].upTo <= now)
    && (forall t :: t in d.deliveries ==> WasSent(d.sent, t) && DayOf(t) >= DayOf(Cutoff(now)))
    && (d.sent != [] ==> LastOf(d.sent) in d.deliveries || DayOf(LastOf(d.sent)) < DayOf(Cutoff(now)))
  }

  ghost predicate WasSent(sent: seq<Email>, t: int) {
    exists i :: 0 <= i < |sent| && sent[i].upTo == t
  }

  function LastOf(sent: seq<Email>): int
    requires sent != []
  {
    sent[|sent| - 1].upTo
  }

  /** No earlier window ends after the last one. */
  lemma LastIsLatest(sent: seq<Email>, i: nat)
    requires Windows(sent) && i < |sent|
    ensures sent[i].upTo <= LastOf(sent)
  {
    if i < |sent| - 1 {
      assert sent[i].upTo <= sent[|sent| - 1].after < sent[|sent| - 1].upTo;
    }
  }

  /** The cursor is never before the end of an earlier window. */
  lemma CursorIsPast(d: Digest, before: nat, now: nat)
    requires Inv(d, before) && before <= now && d.sent != []
    ensures LastOf(d.sent) <= Cursor(d, now)
  {
    var last := LastOf(d.sent);
    forall t | t in d.deliveries ensures t <= last {
      var i :| 0 <= i < |d.sent| && d.sent[i].upTo == t;
      LastIsLatest(d.sent, i);
    }
    if last !in d.deliveries {
      forall t | t in d.deliveries ensures false {
        DayMonotone(t, last);
      }
      if last >= Cutoff(before) { DayMonotone(Cutoff(before), last); }
    }
  }

  lemma QuietStep(d: Digest, before: nat, now: nat)
    requires Inv(d, before) && before <= now
    ensures Inv(Digest(Kept(d.deliveries, now), d.sent), now)
  {
    DayMonotone(Cutoff(before), Cutoff(now));
  }

  lemma SendStep(d: Digest, before: nat, now: nat, email: Email)
    requires Inv(d, before) && before <= now
    requires email.upTo == now && email.after < now && (d.sent != [] ==> LastOf(d.sent) <= email.after)
    ensures Inv(Digest(Kept(d.deliveries + {now}, now), d.sent + [email]), now)
  {
    var sent := d.sent + [email];
    DayMonotone(Cutoff(now), now);
    forall i | 0 <= i < |d.sent| ensures d.sent[i].upTo <= email.after {
      LastIsLatest(d.sent, i);
    }
    assert sent[|d.sent|].upTo == now;
    forall t | t in d.deliveries ensures WasSent(sent, t) {
      var i :| 0 <= i < |d.sent| && d.sent[i].upTo == t;
      assert sent[i].upTo == t;
    }
    assert LastOf(sent) == now;
  }

  lemma StepKeepsInv(d: Digest, before: nat, r: Run)
    requires Inv(d, before) && before <= r.now
    ensures Inv(Next(d, r), r.now)
  {
    if Claims(d, r) {
      if d.sent != [] { CursorIsPast(d, before, r.now); }
      var e :| e in InWindow(r.events, Cursor(d, r.now), r.now);
      SendStep(d, before, r.now, EmailOf(r.events, Cursor(d, r.now), r.now));
    } else {
      QuietStep(d, before, r.now);
    }
  }

  lemma {:induction false} RunKeepsInv(states: seq<Digest>, runs: seq<Run>, k: nat)
    requires Trace(states, runs) && 0 < k <= |runs|
    ensures Inv(states[k], runs[k - 1].now)
  {
    if k > 1 {
      RunKeepsInv(states, runs, k - 1);
      StepKeepsInv(states[k - 1], runs[k - 2].now, runs[k - 1]);
    } else {
      StepKeepsInv(states[0], 0, runs[0]);
    }
  }

  /** The windows of successive emails never overlap, so no event is counted twice. */
  lemma WindowsAreDisjoint(states: seq<Digest>, runs: seq<Run>, i: nat, j: nat, e: Event)
    requires Trace(states, runs)
    requires var sent := states[|runs|].sent; i < j < |sent|
    requires var sent := states[|runs|].sent; sent[i].after < e.createdAt <= sent[i].upTo
    ensures var sent := states[|runs|].sent; !(sent[j].after < e.createdAt <= sent[j].upTo)
  {
    if runs != [] {
      RunKeepsInv(states, runs, |runs|);
    }
  }

  // ----- what is skipped -----

  predicate InSome(sent: seq<Email>, t: int) {
    exists i :: 0 <= i < |sent| && sent[i].after < t <= sent[i].upTo
  }

  /** Each window begins where the one before ended. */
  predicate Adjoin(sent: seq<Email>) {
    forall i :: 0 <= i < |sent| - 1 ==> sent[i + 1].after == sent[i].upTo
  }

  /** Every time from the first window on is in some window. */
  ghost predicate Gapless(sent: seq<Email>) {
    sent != [] ==> forall t :: sent[0].after < t <= LastOf(sent) ==> InSome(sent, t)
  }

  lemma {:induction false} AdjoinIsGapless(sent: seq<Email>, t: int)
    requires Windows(sent) && Adjoin(sent) && sent != [] && sent[0].after < t <= LastOf(sent)
    ensures InSome(sent, t)
    decreases |sent|
  {
    var n := |sent| - 1;
    if sent[n].after < t {
      assert sent[n].after < t <= sent[n].upTo;
    } else {
      assert n > 0 && sent[n - 1 + 1].after == sent[n - 1].upTo;
      AdjoinIsGapless(sent[..n], t);
      var i :| 0 <= i < n && sent[..n][i].after < t <= sent[..n][i].upTo;
      assert sent[i].after < t <= sent[i].upTo;
    }
  }

  /** The time right after a window that the next one does not adjoin is in no window. */
  lemma GapIsOutside(sent: seq<Email>, i: nat)
    requires Windows(sent) && i + 1 < |sent| && sent[i + 1].after != sent[i].upTo
    ensures !InSome(sent, sent[i].upTo + 1) && sent[0].after < sent[i].upTo + 1 <= LastOf(sent)
  {
    var t := sent[i].upTo + 1;
    assert t <= sent[i + 1].after;
    forall j | 0 <= j < |sent| ensures !(sent[j].after < t <= sent[j].upTo) {
      if j < i { assert sent[j].upTo <= sent[i].after; }
      if j > i + 1 { assert sent[i + 1].upTo <= sent[j].after; }
    }
    if i > 0 { assert sent[0].upTo <= sent[i].after; }
    LastIsLatest(sent, i + 1);
  }

  lemma GaplessIff(sent: seq<Email>)
    requires Windows(sent)
    ensures Gapless(sent) <==> Adjoin(sent)
  {
    if Adjoin(sent) && sent != [] {
      forall t | sent[0].after < t <= LastOf(sent) ensures InSome(sent, t) {
        AdjoinIsGapless(sent, t);
      }
    }
    if !Adjoin(sent) {
      var i :| 0 <= i < |sent| - 1 && sent[i + 1].after != sent[i].upTo;
      GapIsOutside(sent, i);
    }
  }

  /** The run emails although an earlier run, at `before`, already dropped the claim of the
      last email: that email is more than the retention of 30 days older. */
  ghost predicate Forgets(d: Digest, before: nat, r: Run) {
    Claims(d, r) && d.sent != [] && DayOf(LastOf(d.sent)) < DayOf(Cutoff(before))
  }

  /** A new window adjoins the last one unless its claim was dropped before. */
  lemma CursorIsLastIff(d: Digest, before: nat, r: Run)
    requires Inv(d, before) && before <= r.now && d.sent != [] && Claims(d, r)
    ensures Cursor(d, r.now) == LastOf(d.sent) <==> !Forgets(d, before, r)
  {
    var last := LastOf(d.sent);
    CursorIsPast(d, before, r.now);
    forall t | t in d.deliveries ensures t <= last {
      var i :| 0 <= i < |d.sent| && d.sent[i].upTo == t;
      LastIsLatest(d.sent, i);
    }
    if last !in d.deliveries {
      DroppedIsOld(d, before, last);
    }
  }

  lemma DroppedIsOld(d: Digest, before: nat, last: int)
    requires Inv(d, before) && d.sent != [] && last == LastOf(d.sent) && last !in d.deliveries
    ensures d.deliveries == {} && last < Cutoff(before) <= before
  {
    assert DayOf(last) < DayOf(Cutoff(before));
    if last >= Cutoff(before) { DayMonotone(Cutoff(before), last); }
    forall t | t in d.deliveries ensures false {
      var i :| 0 <= i < |d.sent| && d.sent[i].upTo == t;
      LastIsLatest(d.sent, i);
      DayMonotone(t, last);
    }
  }

  lemma AdjoinNext(sent: seq<Email>, email: Email)
    ensures Adjoin(sent + [email]) <==> Adjoin(sent) && (sent == [] || email.after == LastOf(sent))
  {
    var longer := sent + [email];
    if Adjoin(longer) {
      forall i | 0 <= i < |sent| - 1 ensures sent[i + 1].after == sent[i].upTo {
        assert longer[i + 1].after == longer[i].upTo;
      }
      if sent != [] { assert longer[|sent| - 1 + 1].after == longer[|sent| - 1].upTo; }
    }
  }

  lemma {:induction false} AdjoinIff(states: seq<Digest>, runs: seq<Run>, k: nat)
    requires Trace(states, runs) && k <= |runs|
    ensures Adjoin(states[k].sent) <==> forall i :: 0 < i < k ==> !Forgets(states[i], runs[i - 1].now, runs[i])
  {
    if k > 0 {
      AdjoinIff(states, runs, k - 1);
      var d, r := states[k - 1], runs[k - 1];
      assert states[k] == Next(d, r);
      if k > 1 { RunKeepsInv(states, runs, k - 1); }
      if Claims(d, r) {
        AdjoinNext(d.sent, EmailOf(r.events, Cursor(d, r.now), r.now));
        if d.sent != [] { CursorIsLastIff(d, runs[k - 2].now, r); }
      }
    }
  }

  /** From the first window on no time is skipped iff no email follows an earlier one after a
      run that already dropped its claim. */
  lemma NothingSkippedIff(states: seq<Digest>, runs: seq<Run>)
    requires Trace(states, runs)
    ensures Gapless(states[|runs|].sent)
            <==> forall i :: 0 < i < |runs| ==> !Forgets(states[i], runs[i - 1].now, runs[i])
  {
    if runs != [] { RunKeepsInv(states, runs, |runs|); }
    GaplessIff(states[|runs|].sent);
    AdjoinIff(states, runs, |runs|);
  }

  /** It happens to a user who turns mail off for more than a month: an event of the last
      days before the next email is in no window, though it is stored and visible. */
  lemma QuietMonthSkips(first: Event, missed: Event, last: Event, runs: seq<Run>) returns (states: seq<Digest>)
    requires first == Event(0, "CVE-1", 5 * SECONDS_PER_DAY, true)
    requires missed == Event(1, "CVE-1", 39 * SECONDS_PER_DAY, true)
    requires last == Event(2, "CVE-1", 41 * SECONDS_PER_DAY, true)
    requires runs == [Run(5 * SECONDS_PER_DAY, true, true, {first}), Run(40 * SECONDS_PER_DAY, false, true, {missed}),
                      Run(41 * SECONDS_PER_DAY, true, true, {missed, last})]
    ensures Trace(states, runs) && |states[3].sent| == 2 && !InSome(states[3].sent, missed.createdAt)
  {
    var d0 := Digest({}, []);
    assert first in InWindow(runs[0].events, Cursor(d0, runs[0].now), runs[0].now);
    var d1 := Next(d0, runs[0]);
    var d2 := Next(d1, runs[1]);
    assert d2.deliveries == {};
    assert last in InWindow(runs[2].events, Cursor(d2, runs[2].now), runs[2].now);
    var d3 := Next(d2, runs[2]);
    states := [d0, d1, d2, d3];
    assert d3.sent[0].upTo == 5 * SECONDS_PER_DAY && d3.sent[1].after == 40 * SECONDS_PER_DAY;
  }

  // ----- which events are counted -----

  /** The hourly diff stores an event, dated when that diff began, or the digest runs. */
  datatype Moment = Stores(event: Event) | Runs(now: nat, wants: bool, reachable: bool)

  /** The stored events before moment `k`, without those earlier runs purged. */
  function EventsAt(h: seq<Moment>, k: nat): set<Event>
    requires k <= |h|
  {
    if k == 0 then {}
    else match h[k - 1]
      case Stores(e) => EventsAt(h, k - 1) + {e}
      case Runs(now, _, _) => set e | e in EventsAt(h, k - 1) && e.createdAt >= Cutoff(now)
  }

  ghost function RunAt(h: seq<Moment>, k: nat): Run
    requires k < |h| && h[k].Runs?
  {
    Run(h[k].now, h[k].wants, h[k].reachable, EventsAt(h, k))
  }

  ghost function DigestAt(h: seq<Moment>, k: nat): Digest
    requires k <= |h|
  {
    if k == 0 then Digest({}, [])
    else if h[k - 1].Runs? then Next(DigestAt(h, k - 1), RunAt(h, k - 1))
    else DigestAt(h, k - 1)
  }

  /** The time of the last run before moment `k`. */
  function LastRun(h: seq<Moment>, k: nat): nat
    requires k <= |h|
  {
    if k == 0 then 0 else if h[k - 1].Runs? then h[k - 1].now else LastRun(h, k - 1)
  }

  ghost predicate ClockRuns(h: seq<Moment>) {
    forall k :: 0 <= k < |h| && h[k].Runs? ==> LastRun(h, k) <= h[k].now
  }

  lemma {:induction false} HistoryKeepsInv(h: seq<Moment>, k: nat)
    requires ClockRuns(h) && k <= |h|
    ensures Inv(DigestAt(h, k), LastRun(h, k))
  {
    if k > 0 {
      HistoryKeepsInv(h, k - 1);
      if h[k - 1].Runs? {
        StepKeepsInv(DigestAt(h, k - 1), LastRun(h, k - 1), RunAt(h, k - 1));
      }
    }
  }

  /** The run at moment `i` sends an email whose window contains the time `t`. */
  ghost predicate CoversAt(h: seq<Moment>, i: nat, t: int) {
    && i < |h| && h[i].Runs? && Claims(DigestAt(h, i), RunAt(h, i))
    && Cursor(DigestAt(h, i), h[i].now) < t <= h[i].now
  }

  /** The run at moment `i` sends an email that counts the event. */
  ghost predicate CountsAt(h: seq<Moment>, i: nat, e: Event) {
    && i < |h| && h[i].Runs? && Claims(DigestAt(h, i), RunAt(h, i))
    && e in InWindow(EventsAt(h, i), Cursor(DigestAt(h, i), h[i].now), h[i].now)
  }

  /** An email once sent stays the last, or others with later windows follow. */
  lemma {:induction false} LaterWindows(h: seq<Moment>, i: nat, j: nat)
    requires ClockRuns(h) && i < j <= |h| && h[i].Runs? && Claims(DigestAt(h, i), RunAt(h, i))
    ensures DigestAt(h, j).sent != [] && h[i].now <= LastOf(DigestAt(h, j).sent)
    decreases j
  {
    if j > i + 1 {
      LaterWindows(h, i, j - 1);
      HistoryKeepsInv(h, j);
      var before, after := DigestAt(h, j - 1).sent, DigestAt(h, j).sent;
      if after != before {
        LastIsLatest(after, |before| - 1);
      }
    }
  }

  /** No time is in the windows of two runs. */
  lemma OneWindow(h: seq<Moment>, i: nat, j: nat, t: int)
    requires ClockRuns(h) && CoversAt(h, i, t) && CoversAt(h, j, t)
    ensures i == j
  {
    if i < j {
      WindowIsPast(h, i, j, t);
    } else if j < i {
      WindowIsPast(h, j, i, t);
    }
  }

  lemma WindowIsPast(h: seq<Moment>, i: nat, j: nat, t: int)
    requires ClockRuns(h) && i < j && CoversAt(h, i, t)
    ensures !CoversAt(h, j, t)
  {
    if CoversAt(h, j, t) {
      LaterWindows(h, i, j);
      HistoryKeepsInv(h, j);
      CursorIsPast(DigestAt(h, j), LastRun(h, j), h[j].now);
    }
  }

  /** Stored before moment `k`, and purged by no run in between. */
  ghost predicate StillStored(h: seq<Moment>, k: nat, e: Event)
    requires k <= |h|
  {
    exists p :: 0 <= p < k && h[p] == Stores(e) && NotPurged(h, p, k, e)
  }

  predicate NotPurged(h: seq<Moment>, p: nat, k: nat, e: Event)
    requires k <= |h|
  {
    forall j :: p < j < k && h[j].Runs? ==> e.createdAt >= Cutoff(h[j].now)
  }

  lemma {:induction false} StoredIff(h: seq<Moment>, k: nat, e: Event)
    requires k <= |h|
    ensures e in EventsAt(h, k) <==> StillStored(h, k, e)
  {
    if k > 0 {
      StoredIff(h, k - 1, e);
      if StillStored(h, k, e) {
        var p :| 0 <= p < k && h[p] == Stores(e) && NotPurged(h, p, k, e);
        if p < k - 1 {
          assert NotPurged(h, p, k - 1, e);
        }
      }
      if e in EventsAt(h, k) {
        if h[k - 1] == Stores(e) {
          assert NotPurged(h, k - 1, k, e);
        } else {
          var p :| 0 <= p < k - 1 && h[p] == Stores(e) && NotPurged(h, p, k - 1, e);
          assert NotPurged(h, p, k, e);
        }
      }
    }
  }

  /** An event is counted by at most one email: by that of the run whose window contains its
      time, and exactly when it is visible and that run found it stored. */
  lemma EventCountedIff(h: seq<Moment>, i: nat, e: Event)
    requires ClockRuns(h) && CoversAt(h, i, e.createdAt)
    ensures CountsAt(h, i, e) <==> e.visible && StillStored(h, i, e)
    ensures forall j :: j != i ==> !CountsAt(h, j, e)
  {
    StoredIff(h, i, e);
    forall j | j != i ensures !CountsAt(h, j, e) {
      if CountsAt(h, j, e) {
        OneWindow(h, i, j, e.createdAt);
      }
    }
  }

  /** Events outside every window are not counted. */
  lemma UncoveredIsUncounted(h: seq<Moment>, e: Event)
    requires forall i :: !CoversAt(h, i, e.createdAt)
    ensures forall i :: !CountsAt(h, i, e)
  {
    forall i ensures !CountsAt(h, i, e) {
      assert !CoversAt(h, i, e.createdAt);
    }
  }

  /** Exactly the visible events that were stored when the run of their window read are
      counted, each by one email. */
  lemma CountedOnceIff(h: seq<Moment>, e: Event)
    requires ClockRuns(h)
    ensures (exists i :: CountsAt(h, i, e))
            <==> e.visible && exists i :: CoversAt(h, i, e.createdAt) && StillStored(h, i, e)
    ensures forall i, j :: CountsAt(h, i, e) && CountsAt(h, j, e) ==> i == j
  {
    forall i, j | CountsAt(h, i, e) && CountsAt(h, j, e) ensures i == j {
      OneWindow(h, i, j, e.createdAt);
    }
    if i :| CountsAt(h, i, e) {
      assert CoversAt(h, i, e.createdAt);
      EventCountedIff(h, i, e);
    }
    if i :| CoversAt(h, i, e.createdAt) && StillStored(h, i, e) {
      EventCountedIff(h, i, e);
    }
  }

  /** An event that the diff commits after the run whose window contains its time is in no
      email, however the history goes on. */
  lemma LateEventIsMissed(h: seq<Moment>, i: nat, p: nat, e: Event)
    requires ClockRuns(h) && CoversAt(h, i, e.createdAt) && i < p < |h| && h[p] == Stores(e)
    requires forall q :: 0 <= q < |h| && h[q] == Stores(e) ==> q == p
    ensures forall j :: !CountsAt(h, j, e)
  {
    EventCountedIff(h, i, e);
    forall j ensures !CountsAt(h, j, e) {
      if j == i {
        assert !StillStored(h, i, e);
      }
    }
  }

  /** It happens whenever a digest runs between the beginning and the commit of a diff. */
  lemma DigestOvertakesDiff(first: Event, late: Event, h: seq<Moment>)
    requires first == Event(0, "CVE-1", SECONDS_PER_DAY, true)
    requires late == Event(1, "CVE-2", SECONDS_PER_DAY + 60, true)
    requires h == [Stores(first), Runs(SECONDS_PER_DAY + 120, true, true), Stores(late)]
    ensures ClockRuns(h) && late.visible && late in EventsAt(h, 3) && CoversAt(h, 1, late.createdAt)
    ensures forall j :: !CountsAt(h, j, late)
  {
    assert EventsAt(h, 0) == {} && h[0] == Stores(first);
    assert EventsAt(h, 1) == {first};
    assert DigestAt(h, 0) == Digest({}, []);
    var d := DigestAt(h, 1);
    assert d == Digest({}, []);
    assert first in InWindow(EventsAt(h, 1), Cursor(d, h[1].now), h[1].now);
    assert EventsAt(h, 3) == EventsAt(h, 2) + {late};
    LateEventIsMissed(h, 1, 2, late);
  }
}
