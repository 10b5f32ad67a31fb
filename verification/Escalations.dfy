/** Escalation deadlines (services/escalation_rules.py and services/escalation_preview.py):
    the strictest matching rule, and deadlines per CVE against deadlines per location. */
module Escalations {
  import opened Wrappers
  import opened Days

  /** Offsets in days, per level, from first seen and from fix available. */
  datatype Rule = Rule(
    severityMin: Option<int>, epssThreshold: Option<real>,
    days: map<int, int>, daysAfterFix: map<int, int>)

  function SeverityMin(r: Rule): int {
    if r.severityMin.Some? then r.severityMin.value else 0
  }

  function EpssThreshold(r: Rule): real {
    if r.epssThreshold.Some? then r.epssThreshold.value else 0.0
  }

  predicate Matches(r: Rule, severity: int, epss: real) {
    severity >= SeverityMin(r) && epss >= EpssThreshold(r)
  }

  /** `r` is at most as strict as `s`. */
  predicate AtMostAsStrict(r: Rule, s: Rule) {
    if SeverityMin(r) != SeverityMin(s) then SeverityMin(r) < SeverityMin(s)
    else EpssThreshold(r) <= EpssThreshold(s)
  }

  /** `pick_matching_rule`: the first of the strictest matching rules. */
  function PickMatchingRule(rules: seq<Rule>, severity: int, epss: real): Option<Rule> {
    if rules == [] then None
    else
      var last := rules[|rules| - 1];
      var best := PickMatchingRule(rules[..|rules| - 1], severity, epss);
      if !Matches(last, severity, epss) then best
      else if best.Some? && AtMostAsStrict(last, best.value) then best
      else Some(last)
  }

  /** The pick is a matching rule no other matching rule is stricter than, and there is a
      pick whenever some rule matches. */
  lemma {:induction false} PickIsStrictest(rules: seq<Rule>, severity: int, epss: real)
    ensures var pick := PickMatchingRule(rules, severity, epss);
      && (pick.None? <==> forall r :: r in rules ==> !Matches(r, severity, epss))
      && (pick.Some? ==> pick.value in rules && Matches(pick.value, severity, epss)
                         && forall r :: r in rules && Matches(r, severity, epss) ==> AtMostAsStrict(r, pick.value))
  {
    if rules != [] {
      var n := |rules| - 1;
      PickIsStrictest(rules[..n], severity, epss);
      assert rules == rules[..n] + [rules[n]];
    }
  }

  /** Raising severity or EPSS never picks a less strict rule. */
  lemma PickIsMonotone(rules: seq<Rule>, severity: int, epss: real, severity': int, epss': real)
    requires severity <= severity' && epss <= epss'
    requires PickMatchingRule(rules, severity, epss).Some?
    ensures PickMatchingRule(rules, severity', epss').Some?
    ensures AtMostAsStrict(PickMatchingRule(rules, severity, epss).value,
            PickMatchingRule(rules, severity', epss').value)
  {
    PickIsStrictest(rules, severity, epss);
    PickIsStrictest(rules, severity', epss');
    assert Matches(PickMatchingRule(rules, severity, epss).value, severity', epss');
  }

  /** A rule matches from its minimal severity and its EPSS threshold on, both zero when not
      configured. */
  lemma MatchesIff(r: Rule, severity: int, epss: real)
    ensures Matches(r, severity, epss) <==>
            && (match r.severityMin case Some(m) => m <= severity case None => 0 <= severity)
            && (match r.epssThreshold case Some(t) => t <= epss case None => 0.0 <= epss)
  {
  }

  /** No matching rule asks for a higher severity than the pick, or for the same severity and
      a higher EPSS. */
  lemma PickAsksMost(rules: seq<Rule>, severity: int, epss: real, r: Rule)
    requires r in rules && Matches(r, severity, epss)
    ensures var pick := PickMatchingRule(rules, severity, epss);
      && pick.Some? && pick.value in rules && Matches(pick.value, severity, epss)
      && SeverityMin(r) <= SeverityMin(pick.value)
      && (SeverityMin(r) == SeverityMin(pick.value) ==> EpssThreshold(r) <= EpssThreshold(pick.value))
  {
    PickIsStrictest(rules, severity, epss);
  }

  // ----- deadlines -----

  const LEVELS: seq<int> := [1, 2, 3]

  function Earlier(a: Option<int>, b: Option<int>): Option<int> {
    match (a, b)
    case (None, _) => b
    case (_, None) => a
    case (Some(x), Some(y)) => if y < x then b else a
  }

  function Offset(days: map<int, int>, level: int, ts: Option<int>): Option<int> {
    if level in days && ts.Some? then Some(ts.value + days[level] * SECONDS_PER_DAY) else None
  }

  /** The deadline of one level: the earliest configured anchor with a timestamp. */
  function Deadline(r: Rule, level: int, firstSeen: Option<int>, fixAvailable: Option<int>): Option<int> {
    Earlier(Offset(r.days, level, firstSeen), Offset(r.daysAfterFix, level, fixAvailable))
  }

  /** `level_deadlines` */
  method LevelDeadlines(r: Rule, firstSeen: Option<int>, fixAvailable: Option<int>) returns (out: map<int, int>)
    ensures forall level :: level in out <==> 1 <= level <= 3 && Deadline(r, level, firstSeen, fixAvailable).Some?
    ensures forall level :: level in out ==> Some(out[level]) == Deadline(r, level, firstSeen, fixAvailable)
  {
    out := map[];
    for i := 0 to |LEVELS|
      invariant forall level ::
        level in out <==> level in LEVELS[..i] && Deadline(r, level, firstSeen, fixAvailable).Some?
      invariant forall level :: level in out ==> Some(out[level]) == Deadline(r, level, firstSeen, fixAvailable)
    {
      var level := LEVELS[i];
      assert LEVELS[..i + 1] == LEVELS[..i] + [level];
      var candidates: seq<int> := [];
      if level in r.days && firstSeen.Some? {
        candidates := candidates + [firstSeen.value + r.days[level] * SECONDS_PER_DAY];
      }
      if level in r.daysAfterFix && fixAvailable.Some? {
        candidates := candidates + [fixAvailable.value + r.daysAfterFix[level] * SECONDS_PER_DAY];
      }
      if candidates != [] {
        var first := |candidates| == 1 || candidates[0] <= candidates[1];
        out := out[level := if first then candidates[0] else candidates[1]];
      }
    }
    assert LEVELS[..|LEVELS|] == LEVELS && forall level :: level in LEVELS <==> 1 <= level <= 3;
  }

  /** The deadlines a rule sets for a level: so many days after the CVE was first seen, and
      so many after a fix became available. */
  ghost function DueDates(r: Rule, level: int, firstSeen: Option<int>, fixAvailable: Option<int>): set<int> {
    (if level in r.days && firstSeen.Some? then {firstSeen.value + r.days[level] * 86400} else {})
    + (if level in r.daysAfterFix && fixAvailable.Some? then {fixAvailable.value + r.daysAfterFix[level] * 86400}
       else {})
  }

  /** The earliest of them is the deadline. */
  lemma DeadlineIsEarliest(r: Rule, level: int, firstSeen: Option<int>, fixAvailable: Option<int>)
    ensures
      var due, deadline := DueDates(r, level, firstSeen, fixAvailable), Deadline(r, level, firstSeen, fixAvailable);
      if due == {} then deadline == None
      else deadline.Some? && deadline.value in due && forall d :: d in due ==> deadline.value <= d
  {
  }

  // ----- anchors per CVE -----

  datatype LocationRow = LocationRow(cveId: string, firstSeen: Option<int>, fixAvailable: Option<int>)

  datatype Anchors = Anchors(firstSeen: Option<int>, fixAvailable: Option<int>)

  /** The earliest timestamps over the rows of one CVE. */
  function AnchorsOf(rows: seq<LocationRow>, cveId: string): Anchors {
    if rows == [] then Anchors(None, None)
    else
      var before, row := AnchorsOf(rows[..|rows| - 1], cveId), rows[|rows| - 1];
      if row.cveId != cveId then before
      else Anchors(Earlier(before.firstSeen, row.firstSeen), Earlier(before.fixAvailable, row.fixAvailable))
  }

  /** An anchor is the earliest time among the rows of the CVE that have one. */
  lemma {:induction false} AnchorsAreEarliest(rows: seq<LocationRow>, cveId: string)
    ensures var a := AnchorsOf(rows, cveId);
      && (a.firstSeen.None? <==> forall r :: r in rows && r.cveId == cveId ==> r.firstSeen.None?)
      && (a.firstSeen.Some? ==> exists r :: r in rows && r.cveId == cveId && r.firstSeen == a.firstSeen)
      && (forall r :: r in rows && r.cveId == cveId && r.firstSeen.Some? ==> a.firstSeen.value <= r.firstSeen.value)
      && (a.fixAvailable.None? <==> forall r :: r in rows && r.cveId == cveId ==> r.fixAvailable.None?)
      && (a.fixAvailable.Some? ==> exists r :: r in rows && r.cveId == cveId && r.fixAvailable == a.fixAvailable)
      && (forall r :: r in rows && r.cveId == cveId && r.fixAvailable.Some? ==>
            a.fixAvailable.value <= r.fixAvailable.value)
    decreases |rows|
  {
    if rows != [] {
      var n := |rows| - 1;
      AnchorsAreEarliest(rows[..n], cveId);
      assert rows == rows[..n] + [rows[n]];
    }
  }

  /** `_anchors_by_cve` */
  method AnchorsByCve(rows: seq<LocationRow>) returns (anchors: map<string, Anchors>)
    ensures forall cveId :: cveId in anchors <==> exists row :: row in rows && row.cveId == cveId
    ensures forall cveId :: cveId in anchors ==> anchors[cveId] == AnchorsOf(rows, cveId)
  {
    anchors := map[];
    for i := 0 to |rows|
      invariant forall cveId :: cveId in anchors <==> exists row :: row in rows[..i] && row.cveId == cveId
      invariant forall cveId :: cveId !in anchors ==> AnchorsOf(rows[..i], cveId) == Anchors(None, None)
      invariant forall cveId :: cveId in anchors ==> anchors[cveId] == AnchorsOf(rows[..i], cveId)
    {
      var row := rows[i];
      assert rows[..i + 1] == rows[..i] + [row] && rows[..i + 1][..i] == rows[..i];
      var current := if row.cveId in anchors then anchors[row.cveId] else Anchors(None, None);
      if row.firstSeen.Some? && (current.firstSeen.None? || row.firstSeen.value < current.firstSeen.value) {
        current := current.(firstSeen := row.firstSeen);
      }
      if row.fixAvailable.Some? && (current.fixAvailable.None? || row.fixAvailable.value < current.fixAvailable.value) {
        current := current.(fixAvailable := row.fixAvailable);
      }
      anchors := anchors[row.cveId := current];
    }
    assert rows[..|rows|] == rows;
  }

  /** The earliest deadline of the CVE's rows, taken row by row. */
  function EarliestDeadline(r: Rule, level: int, rows: seq<LocationRow>, cveId: string): Option<int> {
    if rows == [] then None
    else
      var before, row := EarliestDeadline(r, level, rows[..|rows| - 1], cveId), rows[|rows| - 1];
      if row.cveId != cveId then before else Earlier(before, Deadline(r, level, row.firstSeen, row.fixAvailable))
  }

  function RowDeadline(r: Rule, level: int, row: LocationRow): Option<int> {
    Deadline(r, level, row.firstSeen, row.fixAvailable)
  }

  /** It is absent iff absent on every row, and otherwise the least of the rows'. */
  lemma {:induction false} EarliestIsLeast(r: Rule, level: int, rows: seq<LocationRow>, cveId: string)
    ensures var e := EarliestDeadline(r, level, rows, cveId);
      && (e.None? <==> forall row :: row in rows && row.cveId == cveId ==> RowDeadline(r, level, row).None?)
      && (e.Some? ==>
            && (exists row :: row in rows && row.cveId == cveId && RowDeadline(r, level, row) == e)
            && forall row :: row in rows && row.cveId == cveId && RowDeadline(r, level, row).Some? ==>
                 e.value <= RowDeadline(r, level, row).value)
  {
    if rows != [] {
      var n := |rows| - 1;
      EarliestIsLeast(r, level, rows[..n], cveId);
      assert rows == rows[..n] + [rows[n]];
      assert rows[n] in rows;
      assert forall row :: row in rows[..n] ==> row in rows;
    }
  }

  lemma OffsetOfEarlier(days: map<int, int>, level: int, a: Option<int>, b: Option<int>)
    ensures Offset(days, level, Earlier(a, b)) == Earlier(Offset(days, level, a), Offset(days, level, b))
  {
  }

  lemma EarlierRegroups(a: Option<int>, b: Option<int>, c: Option<int>, d: Option<int>)
    ensures Earlier(Earlier(a, b), Earlier(c, d)) == Earlier(Earlier(a, c), Earlier(b, d))
  {
  }

  /** Deadlines distribute over locations: computed from the CVE's earliest anchors they
      are, level by level, the earliest of its rows' own deadlines. */
  lemma {:induction false} DeadlinesDistribute(r: Rule, level: int, rows: seq<LocationRow>, cveId: string)
    ensures var anchors := AnchorsOf(rows, cveId);
      Deadline(r, level, anchors.firstSeen, anchors.fixAvailable) == EarliestDeadline(r, level, rows, cveId)
  {
    if rows != [] {
      var n := |rows| - 1;
      DeadlinesDistribute(r, level, rows[..n], cveId);
      var before, row := AnchorsOf(rows[..n], cveId), rows[n];
      OffsetOfEarlier(r.days, level, before.firstSeen, row.firstSeen);
      OffsetOfEarlier(r.daysAfterFix, level, before.fixAvailable, row.fixAvailable);
      EarlierRegroups(Offset(r.days, level, before.firstSeen), Offset(r.days, level, row.firstSeen),
                      Offset(r.daysAfterFix, level, before.fixAvailable),
                      Offset(r.daysAfterFix, level, row.fixAvailable));
    }
  }
}
