/** Delivery claims: the tables behind "at most one summary email per user and day"
    (services/team_notifications.py and services/notification_summary_service.py). */
module DailyCap {
  import opened Ordering

  const DELIVERY_RETENTION_DAYS := 30

  datatype Claim = Claim(user: string, day: int)

  /** Claims older than the retention are deleted. */
  function Purged(deliveries: set<Claim>, day: int): set<Claim> {
    set c | c in deliveries && c.day >= day - DELIVERY_RETENTION_DAYS
  }

  /** One run of the job: whom it would email, on which day. */
  datatype EmailRun = EmailRun(day: int, owed: set<string>)

  /** The claims a run adds: one per owed user without one for that day. */
  ghost function ClaimsOf(deliveries: set<Claim>, r: EmailRun): set<Claim> {
    Unclaimed(r.owed, r.day, Purged(deliveries, r.day))
  }

  ghost function Unclaimed(users: set<string>, day: int, deliveries: set<Claim>): set<Claim> {
    set u | u in users && Claim(u, day) !in deliveries :: Claim(u, day)
  }

  datatype EmailState = EmailState(deliveries: set<Claim>, sent: seq<Claim>)

  /** `s` becomes `t`: the claims of the run are stored and sent, each once. */
  ghost predicate EmailStep(s: EmailState, r: EmailRun, t: EmailState) {
    var claims := ClaimsOf(s.deliveries, r);
    t.deliveries == Purged(s.deliveries, r.day) + claims
    && s.sent <= t.sent && Distinct(t.sent[|s.sent|..]) && Elems(t.sent[|s.sent|..]) == claims
  }

  ghost predicate EmailTrace(states: seq<EmailState>, runs: seq<EmailRun>) {
    |states| == |runs| + 1
    && forall i :: 0 <= i < |runs| ==> EmailStep(states[i], runs[i], states[i + 1])
  }

  /** After a run the claims are those of the last 30 days and one for each owed user that had
      none for the day. */
  lemma ClaimsAfter(s: EmailState, r: EmailRun, t: EmailState, c: Claim)
    requires EmailStep(s, r, t)
    ensures c in t.deliveries <==> (c in s.deliveries && c.day >= r.day - 30) || (c.day == r.day && c.user in r.owed)
    ensures c in t.sent[|s.sent|..] <==> c.day == r.day && c.user in r.owed && c !in s.deliveries
  {
    assert c in t.sent[|s.sent|..] <==> c in Elems(t.sent[|s.sent|..]);
  }

  /** The clock never falls back by more than the delivery retention. */
  ghost predicate ClockHolds(runs: seq<EmailRun>) {
    forall i, j :: 0 <= i < j < |runs| ==> runs[j].day >= runs[i].day - DELIVERY_RETENTION_DAYS
  }

  /** Whatever was sent is still recorded, unless it is older than some purge reached. */
  ghost predicate Remembered(s: EmailState, latest: int) {
    Distinct(s.sent) && forall c :: c in s.sent && c.day >= latest - DELIVERY_RETENTION_DAYS ==> c in s.deliveries
  }

  lemma {:induction false} SentOnce(states: seq<EmailState>, runs: seq<EmailRun>, k: nat) returns (latest: int)
    requires EmailTrace(states, runs) && ClockHolds(runs) && states[0].sent == [] && 0 < k <= |runs|
    ensures Remembered(states[k], latest)
    ensures exists i :: 0 <= i < k && runs[i].day == latest
    ensures forall i :: 0 <= i < k ==> runs[i].day <= latest
  {
    var s, r, t := states[k - 1], runs[k - 1], states[k];
    assert EmailStep(s, r, t);
    latest := r.day;
    if k > 1 {
      var before := SentOnce(states, runs, k - 1);
      if before > r.day { latest := before; }
      SendingStep(s, r, t, before);
      var i :| 0 <= i < k - 1 && runs[i].day == before;
    } else {
      assert t.sent == t.sent[|s.sent|..];
      forall c | c in t.sent ensures c in t.deliveries { assert c in Elems(t.sent[|s.sent|..]); }
    }
  }

  lemma SendingStep(s: EmailState, r: EmailRun, t: EmailState, before: int)
    requires EmailStep(s, r, t) && Remembered(s, before) && r.day >= before - DELIVERY_RETENTION_DAYS
    ensures Remembered(t, if before > r.day then before else r.day)
  {
    var fresh_ := t.sent[|s.sent|..];
    assert t.sent == s.sent + fresh_;
    assert forall c :: c in fresh_ <==> c in Elems(fresh_);
    forall c | c in fresh_ ensures c !in s.sent {
      assert c in ClaimsOf(s.deliveries, r);
    }
    forall i, j | 0 <= i < j < |t.sent| ensures t.sent[i] != t.sent[j] {
      if j >= |s.sent| {
        assert t.sent[j] == fresh_[j - |s.sent|];
        if i >= |s.sent| {
          assert t.sent[i] == fresh_[i - |s.sent|];
        } else {
          assert t.sent[i] in s.sent && t.sent[j] in fresh_;
        }
      }
    }
  }

  /** Along every run whose clock does not fall back beyond the retention, a user gets at
      most one summary email per day, whatever deliveries were stored at the start. */
  lemma OneEmailPerDay(states: seq<EmailState>, runs: seq<EmailRun>)
    requires EmailTrace(states, runs) && ClockHolds(runs) && states[0].sent == []
    ensures Distinct(states[|runs|].sent)
  {
    if runs != [] {
      var latest := SentOnce(states, runs, |runs|);
    }
  }
}
