/** Suppression rules (services/cve_filter_service.py): the list decides per CVE whether it
    is hidden in a user's whole view, alerts and escalations decide per location. */
module Suppression {
  import opened Wrappers
  import opened Pairs

  /** An unset scope counts as global. */
  datatype RuleScope = Unset | Global | Namespaces(targets: seq<Pair>)

  datatype CveRule = CveRule(cveId: Option<string>, scope: RuleScope)

  datatype ComponentRule = ComponentRule(name: string, pattern: Option<string>)

  datatype Component = Component(name: string, version: string)

  /** Shell-style matching of a version against a pattern. */
  type Glob = (string, string) -> bool

  /** A visible location of a CVE with the affected components present there. */
  datatype LocationRow = LocationRow(loc: Pair, components: seq<Component>)

  // ----- what the rules mean -----

  predicate RuleCovers(rule: CveRule, cveId: string, loc: Pair) {
    rule.cveId == Some(cveId) && (rule.scope.Namespaces? ==> loc in rule.scope.targets)
  }

  ghost predicate Covered(rules: seq<CveRule>, cveId: string, loc: Pair) {
    exists r :: r in rules && RuleCovers(r, cveId, loc)
  }

  ghost predicate HasGlobalRule(rules: seq<CveRule>, cveId: string) {
    exists r :: r in rules && r.cveId == Some(cveId) && !r.scope.Namespaces?
  }

  predicate RuleMatches(glob: Glob, rule: ComponentRule, c: Component) {
    c.name == rule.name && (rule.pattern.Some? ==> glob(c.version, rule.pattern.value))
  }

  ghost predicate ComponentHit(glob: Glob, rules: seq<ComponentRule>, components: seq<Component>) {
    exists r, c :: r in rules && c in components && RuleMatches(glob, r, c)
  }

  /** The CVE is hidden in one location. */
  ghost predicate LocationSuppressed(
    glob: Glob, cveRules: seq<CveRule>, componentRules: seq<ComponentRule>, cveId: string, row: LocationRow) {
    Covered(cveRules, cveId, row.loc) || ComponentHit(glob, componentRules, row.components)
  }

  /** The CVE rules hide the CVE at all of `locations`. */
  ghost predicate CveRulesHide(rules: seq<CveRule>, cveId: string, locations: set<Pair>) {
    HasGlobalRule(rules, cveId) || (locations != {} && forall l :: l in locations ==> Covered(rules, cveId, l))
  }

  /** In full: a CVE rule names the CVE, for everyone or for this location, or a component rule
      names a component present here and matches its version. */
  lemma LocationSuppressedIff(
    glob: Glob, cveRules: seq<CveRule>, componentRules: seq<ComponentRule>, cveId: string, row: LocationRow)
    ensures LocationSuppressed(glob, cveRules, componentRules, cveId, row) <==>
            || (exists r :: r in cveRules && r.cveId == Some(cveId)
                  && match r.scope
                     case Unset => true
                     case Global => true
                     case Namespaces(targets) => row.loc in targets)
            || (exists r, c :: r in componentRules && c in row.components && c.name == r.name
                  && match r.pattern
                     case None => true
                     case Some(pattern) => glob(c.version, pattern))
  {
    if r, c :| r in componentRules && c in row.components && RuleMatches(glob, r, c) {
      assert c.name == r.name;
    }
    if r :| r in cveRules && RuleCovers(r, cveId, row.loc) {
      assert r.cveId == Some(cveId);
    }
  }

  // ----- the source's algorithms -----

  /** `_matches_component_rule` */
  method MatchesComponentRule(glob: Glob, rule: ComponentRule, components: seq<Component>) returns (b: bool)
    ensures b <==> exists c :: c in components && RuleMatches(glob, rule, c)
  {
    for i := 0 to |components|
      invariant forall j :: 0 <= j < i ==> !RuleMatches(glob, rule, components[j])
    {
      if components[i].name != rule.name {
        continue;
      }
      if rule.pattern.None? || glob(components[i].version, rule.pattern.value) {
        assert components[i] in components && RuleMatches(glob, rule, components[i]);
        return true;
      }
    }
    return false;
  }

  /** `_is_cve_suppressed_by_rules` */
  method IsCveSuppressedByRules(
    cveId: string, rules: seq<CveRule>, locationsOf: map<string, set<Pair>>, userNamespaces: Option<set<Pair>>)
    returns (b: bool)
    ensures b <==> CveRulesHide(rules, cveId, VisibleOf(cveId, locationsOf, userNamespaces))
  {
    var covered: set<Pair> := {};
    for i := 0 to |rules|
      invariant forall j :: 0 <= j < i && rules[j].cveId == Some(cveId) ==> rules[j].scope.Namespaces?
      invariant forall l :: l in covered <==> exists j :: 0 <= j < i && RuleCovers(rules[j], cveId, l)
    {
      if rules[i].cveId == Some(cveId) {
        if !rules[i].scope.Namespaces? {
          return true;
        }
        covered := covered + set l | l in rules[i].scope.targets;
      }
    }
    var visible := VisibleOf(cveId, locationsOf, userNamespaces);
    assert forall l :: l in covered <==> Covered(rules, cveId, l);
    return visible != {} && visible <= covered;
  }

  function VisibleOf(cveId: string, locationsOf: map<string, set<Pair>>, userNamespaces: Option<set<Pair>>): set<Pair> {
    var all := if cveId in locationsOf then locationsOf[cveId] else {};
    if userNamespaces.Some? then all * userNamespaces.value else all
  }

  /** `is_location_suppressed` */
  method IsLocationSuppressed(
    glob: Glob, cveId: string, row: LocationRow, cveRules: seq<CveRule>, componentRules: seq<ComponentRule>)
    returns (b: bool)
    ensures b <==> LocationSuppressed(glob, cveRules, componentRules, cveId, row)
  {
    for i := 0 to |cveRules|
      invariant forall j :: 0 <= j < i ==> !RuleCovers(cveRules[j], cveId, row.loc)
    {
      if RuleCovers(cveRules[i], cveId, row.loc) {
        return true;
      }
    }
    for i := 0 to |componentRules|
      invariant forall j, c :: 0 <= j < i && c in row.components ==> !RuleMatches(glob, componentRules[j], c)
    {
      var hit := MatchesComponentRule(glob, componentRules[i], row.components);
      if hit {
        return true;
      }
    }
    return false;
  }

  ghost predicate HasRule(rules: seq<CveRule>, cveId: string) {
    exists r :: r in rules && r.cveId == Some(cveId)
  }

  ghost predicate ListHides(
    glob: Glob, cveRules: seq<CveRule>, componentRules: seq<ComponentRule>, componentsOf: map<string, seq<Component>>,
    locationsOf: Option<map<string, set<Pair>>>, userNamespaces: Option<set<Pair>>, cveId: string)
  {
    || (if locationsOf.None? then HasRule(cveRules, cveId)
        else CveRulesHide(cveRules, cveId, VisibleOf(cveId, locationsOf.value, userNamespaces)))
    || (cveId in componentsOf && ComponentHit(glob, componentRules, componentsOf[cveId]))
  }

  /** `_compute_suppressed_cves`; `locationsOf` is None when no rule is namespace-scoped. */
  method ComputeSuppressedCves(
    glob: Glob, cveRules: seq<CveRule>, componentRules: seq<ComponentRule>, componentsOf: map<string, seq<Component>>,
    allIds: seq<string>, locationsOf: Option<map<string, set<Pair>>>, userNamespaces: Option<set<Pair>>)
    returns (suppressed: set<string>)
    ensures forall cveId :: cveId in suppressed <==>
              cveId in allIds
              && ListHides(glob, cveRules, componentRules, componentsOf, locationsOf, userNamespaces, cveId)
  {
    suppressed := {};
    for i := 0 to |allIds|
      invariant forall cveId :: cveId in suppressed <==>
                  cveId in allIds[..i]
                  && ListHides(glob, cveRules, componentRules, componentsOf, locationsOf, userNamespaces, cveId)
    {
      var cveId := allIds[i];
      var hidden := HasCveRule(cveRules, cveId);
      if hidden && locationsOf.Some? {
        hidden := IsCveSuppressedByRules(cveId, cveRules, locationsOf.value, userNamespaces);
      } else if locationsOf.Some? {
        NoRuleHidesNothing(cveRules, cveId, VisibleOf(cveId, locationsOf.value, userNamespaces));
      }
      if !hidden && cveId in componentsOf {
        hidden := AnyComponentRule(glob, componentRules, componentsOf[cveId]);
      }
      if hidden {
        suppressed := suppressed + {cveId};
      }
      assert allIds[..i + 1] == allIds[..i] + [cveId];
    }
    assert allIds[..|allIds|] == allIds;
  }

  lemma NoRuleHidesNothing(rules: seq<CveRule>, cveId: string, locations: set<Pair>)
    requires !HasRule(rules, cveId)
    ensures !CveRulesHide(rules, cveId, locations)
  {
    if l :| l in locations {
      assert !Covered(rules, cveId, l);
    }
  }

  method HasCveRule(rules: seq<CveRule>, cveId: string) returns (b: bool)
    ensures b <==> HasRule(rules, cveId)
  {
    for i := 0 to |rules|
      invariant forall j :: 0 <= j < i ==> rules[j].cveId != Some(cveId)
    {
      if rules[i].cveId == Some(cveId) {
        return true;
      }
    }
    return false;
  }

  method AnyComponentRule(glob: Glob, rules: seq<ComponentRule>, components: seq<Component>) returns (b: bool)
    ensures b <==> ComponentHit(glob, rules, components)
  {
    for i := 0 to |rules|
      invariant forall j, c :: 0 <= j < i && c in components ==> !RuleMatches(glob, rules[j], c)
    {
      var hit := MatchesComponentRule(glob, rules[i], components);
      if hit {
        return true;
      }
    }
    return false;
  }

  // ----- the two decisions compared -----

  function Locations(rows: seq<LocationRow>): set<Pair> {
    set row | row in rows :: row.loc
  }

  /** The lookups the list makes are about exactly these visible rows. Locations are looked
      up for the CVEs that some CVE rule names, and not at all when no rule is scoped. */
  ghost predicate LooksUp(
    rows: seq<LocationRow>, cveRules: seq<CveRule>, componentRules: seq<ComponentRule>,
    componentsOf: map<string, seq<Component>>,
    locationsOf: Option<map<string, set<Pair>>>, userNamespaces: Option<set<Pair>>, cveId: string)
  {
    && (locationsOf.Some? && HasRule(cveRules, cveId) ==>
          VisibleOf(cveId, locationsOf.value, userNamespaces) == Locations(rows))
    && (locationsOf.None? ==> forall r :: r in cveRules ==> !r.scope.Namespaces?)
    && (componentRules != [] ==>
          forall c :: LookedUp(componentsOf, cveId, c) <==> Present(rows, c))
  }

  predicate LookedUp(componentsOf: map<string, seq<Component>>, cveId: string, c: Component) {
    cveId in componentsOf && c in componentsOf[cveId]
  }

  predicate Present(rows: seq<LocationRow>, c: Component) {
    exists row :: row in rows && c in row.components
  }

  /** What the list decides, in terms of the rows. */
  ghost predicate Hidden(
    glob: Glob, cveRules: seq<CveRule>, componentRules: seq<ComponentRule>, cveId: string, rows: seq<LocationRow>)
  {
    || (forall row :: row in rows ==> Covered(cveRules, cveId, row.loc))
    || (exists row :: row in rows && ComponentHit(glob, componentRules, row.components))
  }

  ghost predicate AllSuppressed(
    glob: Glob, cveRules: seq<CveRule>, componentRules: seq<ComponentRule>, cveId: string, rows: seq<LocationRow>)
  {
    forall row :: row in rows ==> LocationSuppressed(glob, cveRules, componentRules, cveId, row)
  }

  /** The list hides a CVE with visible rows iff CVE rules cover every one of them or a
      component rule matches a component in any of them. */
  lemma ListHidesIff(
    glob: Glob, cveRules: seq<CveRule>, componentRules: seq<ComponentRule>, componentsOf: map<string, seq<Component>>,
    locationsOf: Option<map<string, set<Pair>>>, userNamespaces: Option<set<Pair>>, cveId: string,
    rows: seq<LocationRow>)
    requires rows != []
    requires LooksUp(rows, cveRules, componentRules, componentsOf, locationsOf, userNamespaces, cveId)
    ensures ListHides(glob, cveRules, componentRules, componentsOf, locationsOf, userNamespaces, cveId)
            <==> Hidden(glob, cveRules, componentRules, cveId, rows)
  {
    CoverageIff(cveRules, cveId, rows, locationsOf.None?);
    if !HasRule(cveRules, cveId) && locationsOf.Some? {
      NoRuleHidesNothing(cveRules, cveId, VisibleOf(cveId, locationsOf.value, userNamespaces));
      NoRuleHidesNothing(cveRules, cveId, Locations(rows));
    }
    if cveId in componentsOf && ComponentHit(glob, componentRules, componentsOf[cveId]) {
      var r, c :| r in componentRules && c in componentsOf[cveId] && RuleMatches(glob, r, c);
      assert LookedUp(componentsOf, cveId, c);
      var row :| row in rows && c in row.components;
      assert ComponentHit(glob, componentRules, row.components);
    }
    if row :| row in rows && ComponentHit(glob, componentRules, row.components) {
      var r, c :| r in componentRules && c in row.components && RuleMatches(glob, r, c);
      assert Present(rows, c);
      assert LookedUp(componentsOf, cveId, c);
    }
  }

  lemma CoverageIff(rules: seq<CveRule>, cveId: string, rows: seq<LocationRow>, unscoped: bool)
    requires rows != [] && (unscoped ==> forall r :: r in rules ==> !r.scope.Namespaces?)
    ensures CveRulesHide(rules, cveId, Locations(rows))
            <==> forall row :: row in rows ==> Covered(rules, cveId, row.loc)
    ensures unscoped ==> (HasRule(rules, cveId) <==> CveRulesHide(rules, cveId, Locations(rows)))
  {
    assert rows[0] in rows && rows[0].loc in Locations(rows);
    if HasGlobalRule(rules, cveId) {
      var r :| r in rules && r.cveId == Some(cveId) && !r.scope.Namespaces?;
      forall l ensures Covered(rules, cveId, l) {
        assert RuleCovers(r, cveId, l);
      }
    }
    if forall row :: row in rows ==> Covered(rules, cveId, row.loc) {
      var r :| r in rules && RuleCovers(r, cveId, rows[0].loc);
    }
  }

  /** Suppressed in every visible location means hidden in the list. */
  lemma SuppressedEverywhereIsHidden(
    glob: Glob, cveRules: seq<CveRule>, componentRules: seq<ComponentRule>, componentsOf: map<string, seq<Component>>,
    locationsOf: Option<map<string, set<Pair>>>, userNamespaces: Option<set<Pair>>, cveId: string,
    rows: seq<LocationRow>)
    requires rows != [] && AllSuppressed(glob, cveRules, componentRules, cveId, rows)
    requires LooksUp(rows, cveRules, componentRules, componentsOf, locationsOf, userNamespaces, cveId)
    ensures ListHides(glob, cveRules, componentRules, componentsOf, locationsOf, userNamespaces, cveId)
  {
    ListHidesIff(glob, cveRules, componentRules, componentsOf, locationsOf, userNamespaces, cveId, rows);
  }

  /** A component rule matches in one visible location while another is not suppressed. */
  ghost predicate ComponentsSplit(
    glob: Glob, cveRules: seq<CveRule>, componentRules: seq<ComponentRule>, cveId: string, rows: seq<LocationRow>)
  {
    && (exists row :: row in rows && ComponentHit(glob, componentRules, row.components))
    && (exists row :: row in rows && !LocationSuppressed(glob, cveRules, componentRules, cveId, row))
  }

  lemma HiddenIff(
    glob: Glob, cveRules: seq<CveRule>, componentRules: seq<ComponentRule>, cveId: string, rows: seq<LocationRow>)
    ensures (Hidden(glob, cveRules, componentRules, cveId, rows)
            <==> AllSuppressed(glob, cveRules, componentRules, cveId, rows))
            <==> !ComponentsSplit(glob, cveRules, componentRules, cveId, rows)
  {
    if forall row :: row in rows ==> !ComponentHit(glob, componentRules, row.components) {
      SuppressedWithoutHit(glob, cveRules, componentRules, cveId, rows);
    }
  }

  lemma SuppressedWithoutHit(
    glob: Glob, cveRules: seq<CveRule>, componentRules: seq<ComponentRule>, cveId: string, rows: seq<LocationRow>)
    requires forall row :: row in rows ==> !ComponentHit(glob, componentRules, row.components)
    ensures AllSuppressed(glob, cveRules, componentRules, cveId, rows)
            <==> forall row :: row in rows ==> Covered(cveRules, cveId, row.loc)
  {
  }

  /** The list hides the CVE exactly when every visible location is suppressed, unless its
      components split over the locations. */
  lemma DecisionsAgreeIff(
    glob: Glob, cveRules: seq<CveRule>, componentRules: seq<ComponentRule>, componentsOf: map<string, seq<Component>>,
    locationsOf: Option<map<string, set<Pair>>>, userNamespaces: Option<set<Pair>>, cveId: string,
    rows: seq<LocationRow>)
    requires rows != []
    requires LooksUp(rows, cveRules, componentRules, componentsOf, locationsOf, userNamespaces, cveId)
    ensures (ListHides(glob, cveRules, componentRules, componentsOf, locationsOf, userNamespaces, cveId)
             <==> AllSuppressed(glob, cveRules, componentRules, cveId, rows))
            <==> !ComponentsSplit(glob, cveRules, componentRules, cveId, rows)
  {
    ListHidesIff(glob, cveRules, componentRules, componentsOf, locationsOf, userNamespaces, cveId, rows);
    HiddenIff(glob, cveRules, componentRules, cveId, rows);
  }

  /** Without component rules the two decisions agree. */
  lemma CveRulesAgree(
    glob: Glob, cveRules: seq<CveRule>, componentsOf: map<string, seq<Component>>,
    locationsOf: Option<map<string, set<Pair>>>, userNamespaces: Option<set<Pair>>, cveId: string,
    rows: seq<LocationRow>)
    requires rows != []
    requires LooksUp(rows, cveRules, [], componentsOf, locationsOf, userNamespaces, cveId)
    ensures ListHides(glob, cveRules, [], componentsOf, locationsOf, userNamespaces, cveId)
            <==> AllSuppressed(glob, cveRules, [], cveId, rows)
  {
    DecisionsAgreeIff(glob, cveRules, [], componentsOf, locationsOf, userNamespaces, cveId, rows);
    assert forall row :: row in rows ==> !ComponentHit(glob, [], row.components);
  }

  /** A component rule that matches in one location hides the CVE from the list although
      another visible location is not suppressed and still alerts. */
  lemma SplitComponentsDisagree(
    glob: Glob, cveId: string, a: LocationRow, b: LocationRow, rule: ComponentRule, c: Component)
    requires c in a.components && RuleMatches(glob, rule, c)
    requires forall d :: d in b.components ==> !RuleMatches(glob, rule, d)
    ensures ListHides(glob, [], [rule], map[cveId := a.components + b.components], None, None, cveId)
    ensures LooksUp([a, b], [], [rule], map[cveId := a.components + b.components], None, None, cveId)
    ensures !AllSuppressed(glob, [], [rule], cveId, [a, b])
  {
    var rows, componentsOf := [a, b], map[cveId := a.components + b.components];
    assert a in rows && b in rows && rule in [rule];
    forall d ensures LookedUp(componentsOf, cveId, d) <==> Present(rows, d) {
      assert forall row :: row in rows <==> row == a || row == b;
    }
    assert c in componentsOf[cveId];
    assert ComponentHit(glob, [rule], componentsOf[cveId]);
    assert !LocationSuppressed(glob, [], [rule], cveId, b);
  }

  // ----- compute_suppression_sets -----

  /** A CVE in a deployment's location, as StackRox stores it. */
  datatype Finding = Finding(cveId: string, row: LocationRow)

  /** Who looks: with no list of namespaces, a user who may see all of them. */
  datatype Viewer = Everyone | Member(seesAll: bool, namespaces: set<Pair>)

  predicate InView(v: Viewer, l: Pair) {
    v.Member? ==> l in v.namespaces
  }

  /** The rows of a CVE that the viewer sees. */
  function VisibleRows(v: Viewer, findings: seq<Finding>, cveId: string): seq<LocationRow> {
    if findings == [] then []
    else
      var n := |findings| - 1;
      VisibleRows(v, findings[..n], cveId)
      + if findings[n].cveId == cveId && InView(v, findings[n].row.loc) then [findings[n].row] else []
  }

  function AllComponents(rows: seq<LocationRow>): seq<Component> {
    if rows == [] then [] else AllComponents(rows[..|rows| - 1]) + rows[|rows| - 1].components
  }

  lemma {:induction false} AllComponentsArePresent(rows: seq<LocationRow>, c: Component)
    ensures c in AllComponents(rows) <==> Present(rows, c)
  {
    if rows != [] {
      var n := |rows| - 1;
      AllComponentsArePresent(rows[..n], c);
      assert rows == rows[..n] + [rows[n]];
    }
  }

  /** `get_cve_component_version_map`, for the listed CVEs. */
  function ComponentMap(v: Viewer, findings: seq<Finding>, ids: seq<string>): map<string, seq<Component>> {
    map id | id in ids && VisibleRows(v, findings, id) != [] :: AllComponents(VisibleRows(v, findings, id))
  }

  /** `get_cve_namespace_cluster_map`, for the CVEs that rules name. */
  function LocationMap(v: Viewer, findings: seq<Finding>, ids: set<string>): map<string, set<Pair>> {
    map id | id in ids && VisibleRows(v, findings, id) != [] :: Locations(VisibleRows(v, findings, id))
  }

  function RuleIds(rules: seq<CveRule>): set<string> {
    set r | r in rules && r.cveId.Some? :: r.cveId.value
  }

  predicate AnyScoped(rules: seq<CveRule>) {
    exists r :: r in rules && r.scope.Namespaces?
  }

  /** The viewer's own namespaces, unless they may see all. */
  function OwnNamespaces(v: Viewer): Option<set<Pair>> {
    if v.Member? && !v.seesAll && v.namespaces != {} then Some(v.namespaces) else None
  }

  lemma {:induction false} RowsAreInView(v: Viewer, findings: seq<Finding>, cveId: string)
    ensures forall row :: row in VisibleRows(v, findings, cveId) ==> InView(v, row.loc)
  {
    if findings != [] {
      RowsAreInView(v, findings[..|findings| - 1], cveId);
    }
  }

  /** The lookups made for all rules together fit each kind of rules. */
  lemma LookupsFit(
    v: Viewer, findings: seq<Finding>, ids: seq<string>, cveRules: seq<CveRule>, otherRules: seq<CveRule>,
    componentRules: seq<ComponentRule>, componentsOf: map<string, seq<Component>>,
    locationsOf: Option<map<string, set<Pair>>>, cveId: string)
    requires cveId in ids && VisibleRows(v, findings, cveId) != []
    requires componentRules != [] ==> componentsOf == ComponentMap(v, findings, ids)
    requires locationsOf.None? ==> !AnyScoped(cveRules)
    requires locationsOf.Some? ==>
            locationsOf.value == LocationMap(v, findings, RuleIds(cveRules) + RuleIds(otherRules))
    ensures LooksUp(VisibleRows(v, findings, cveId), cveRules, componentRules, componentsOf, locationsOf,
                    OwnNamespaces(v), cveId)
  {
    var rows := VisibleRows(v, findings, cveId);
    if componentRules != [] {
      forall c ensures LookedUp(componentsOf, cveId, c) <==> Present(rows, c) {
        AllComponentsArePresent(rows, c);
      }
    }
    if locationsOf.Some? && HasRule(cveRules, cveId) {
      RowsAreInView(v, findings, cveId);
      assert cveId in locationsOf.value && locationsOf.value[cveId] == Locations(rows);
      assert OwnNamespaces(v).Some? ==> Locations(rows) * v.namespaces == Locations(rows);
    }
  }

  /** `compute_suppression_sets`: every listed CVE with a visible row is in a set exactly
      when the rules of that status hide it, whichever lookups were needed. */
  method ComputeSuppressionSets(
    glob: Glob, approved: seq<CveRule>, approvedComponents: seq<ComponentRule>,
    requested: seq<CveRule>, requestedComponents: seq<ComponentRule>,
    findings: seq<Finding>, v: Viewer, ids: seq<string>)
    returns (suppressed: set<string>, suppressionRequested: set<string>)
    ensures forall id :: id in suppressed + suppressionRequested ==> id in ids
    ensures forall id :: id in ids && VisibleRows(v, findings, id) != [] ==>
      (id in suppressed <==> Hidden(glob, approved, approvedComponents, id, VisibleRows(v, findings, id)))
    ensures forall id :: id in ids && VisibleRows(v, findings, id) != [] ==>
      (id in suppressionRequested <==> Hidden(glob, requested, requestedComponents, id, VisibleRows(v, findings, id)))
  {
    var componentsOf: map<string, seq<Component>> := map[];
    if approvedComponents != [] || requestedComponents != [] {
      componentsOf := ComponentMap(v, findings, ids);
    }
    var locationsOf: Option<map<string, set<Pair>>> := None;
    if AnyScoped(approved) || AnyScoped(requested) {
      locationsOf := Some(LocationMap(v, findings, RuleIds(approved) + RuleIds(requested)));
    }
    var own := OwnNamespaces(v);
    suppressed := ComputeSuppressedCves(glob, approved, approvedComponents, componentsOf, ids, locationsOf, own);
    suppressionRequested :=
      ComputeSuppressedCves(glob, requested, requestedComponents, componentsOf, ids, locationsOf, own);
    forall id | id in ids && VisibleRows(v, findings, id) != []
      ensures id in suppressed <==> Hidden(glob, approved, approvedComponents, id, VisibleRows(v, findings, id))
      ensures id in suppressionRequested <==>
              Hidden(glob, requested, requestedComponents, id, VisibleRows(v, findings, id))
    {
      var rows := VisibleRows(v, findings, id);
      LookupsFit(v, findings, ids, approved, requested, approvedComponents, componentsOf, locationsOf, id);
      ListHidesIff(glob, approved, approvedComponents, componentsOf, locationsOf, own, id, rows);
      assert RuleIds(approved) + RuleIds(requested) == RuleIds(requested) + RuleIds(approved);
      LookupsFit(v, findings, ids, requested, approved, requestedComponents, componentsOf, locationsOf, id);
      ListHidesIff(glob, requested, requestedComponents, componentsOf, locationsOf, own, id, rows);
    }
  }
}
