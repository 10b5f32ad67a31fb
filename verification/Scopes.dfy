/** Risk acceptance scopes (services/risk_acceptance_service.py): validation against the
    affected deployments, normalisation, and which deployments a scope covers. */
module Scopes {
  import opened Wrappers
  import opened Ordering
  import opened Pairs

  datatype Mode = Everything | Namespaces | Images | Deployments

  datatype Target = Target(pair: Pair, image: Option<string>, deploymentId: Option<string>)

  datatype Scope = Scope(mode: Mode, targets: seq<Target>)

  datatype Deployment = Deployment(id: string, pair: Pair, image: string)

  datatype Error =
    | NamespacesWithoutCve | ImageRequiresName | ImagesWithoutCve
    | DeploymentRequiresId | DeploymentsWithoutCve | InvalidTarget

  /** The request schema: targets exactly when the mode is not "all". */
  predicate WellFormed(s: Scope) {
    s.mode.Everything? <==> s.targets == []
  }

  /** What identifies a target in its mode. */
  datatype Key = NamespaceKey(pair: Pair) | ImageKey(pair: Pair, image: string) | DeploymentKey(id: string) | NoKey

  function KeyOf(mode: Mode, t: Target): Key {
    match mode
    case Everything => NoKey
    case Namespaces => NamespaceKey(t.pair)
    case Images => if t.image.Some? then ImageKey(t.pair, t.image.value) else NoKey
    case Deployments => if t.deploymentId.Some? then DeploymentKey(t.deploymentId.value) else NoKey
  }

  function Keys(s: Scope): set<Key> {
    set t | t in s.targets :: KeyOf(s.mode, t)
  }

  /** `{str(d["deployment_id"]): d for d in deployments}.get(id)` */
  function ById(deployments: seq<Deployment>, id: string): Option<Deployment> {
    if deployments == [] then None
    else
      var n := |deployments| - 1;
      if deployments[n].id == id then Some(deployments[n]) else ById(deployments[..n], id)
  }

  /** Empty names do not pass the target schema. */
  predicate Storable(d: Deployment) {
    d.pair.cluster != [] && d.pair.namespace != [] && d.image != []
  }

  predicate HasImage(deployments: seq<Deployment>, pair: Pair, image: string) {
    exists d :: d in deployments && d.pair == pair && d.image == image
  }

  /** Why a target is refused, if it is. */
  function Refusal(mode: Mode, t: Target, deployments: seq<Deployment>): Option<Error> {
    match mode
    case Everything => None
    case Namespaces => if exists d :: d in deployments && d.pair == t.pair then None else Some(NamespacesWithoutCve)
    case Images =>
      if OrEmpty(t.image) == [] then Some(ImageRequiresName)
      else if HasImage(deployments, t.pair, t.image.value) then None
      else Some(ImagesWithoutCve)
    case Deployments =>
      if OrEmpty(t.deploymentId) == [] then Some(DeploymentRequiresId)
      else match ById(deployments, t.deploymentId.value)
        case None => Some(DeploymentsWithoutCve)
        case Some(d) => if Storable(d) then None else Some(InvalidTarget)
  }

  /** The stored form of a target: only what its mode needs, the rest from the deployment. */
  function Stored(mode: Mode, t: Target, deployments: seq<Deployment>): Target {
    match mode
    case Everything => t
    case Namespaces => Target(t.pair, None, None)
    case Images => Target(t.pair, t.image, None)
    case Deployments =>
      if t.deploymentId.None? then t
      else match ById(deployments, t.deploymentId.value)
        case None => t
        case Some(d) => Target(d.pair, Some(d.image), Some(d.id))
  }

  function OrEmpty(s: Option<string>): string {
    if s.Some? then s.value else ""
  }

  /** The order stored targets are listed in. */
  predicate TargetLe(mode: Mode, x: Target, y: Target) {
    if x.pair != y.pair then ByCluster(x.pair, y.pair)
    else if mode.Deployments? then StrLe(OrEmpty(x.deploymentId), OrEmpty(y.deploymentId))
    else StrLe(OrEmpty(x.image), OrEmpty(y.image))
  }

  lemma TargetOrder(mode: Mode)
    ensures TotalPreorder((x: Target, y: Target) => TargetLe(mode, x, y))
  {
    PairOrders();
    StrLeOrder();
  }

  function FirstRefusal(mode: Mode, targets: seq<Target>, deployments: seq<Deployment>): Option<Error> {
    if targets == [] then None
    else match Refusal(mode, targets[0], deployments)
      case Some(e) => Some(e)
      case None => FirstRefusal(mode, targets[1..], deployments)
  }

  function StoredAll(mode: Mode, targets: seq<Target>, deployments: seq<Deployment>): seq<Target> {
    seq(|targets|, i requires 0 <= i < |targets| => Stored(mode, targets[i], deployments))
  }

  /** The result of `validate_and_resolve_scope`. */
  function Normalize(s: Scope, deployments: seq<Deployment>): Result<Scope, Error> {
    match FirstRefusal(s.mode, s.targets, deployments)
    case Some(e) => Err(e)
    case None => Ok(Scope(s.mode,
      SortedDistinct(StoredAll(s.mode, s.targets, deployments), (x, y) => TargetLe(s.mode, x, y))))
  }

  /** `validate_and_resolve_scope`: one loop over the targets, then sort. */
  method ValidateAndResolve(s: Scope, deployments: seq<Deployment>) returns (r: Result<Scope, Error>)
    requires WellFormed(s)
    ensures r == Normalize(s, deployments)
  {
    if s.mode.Everything? {
      return Ok(Scope(Everything, []));
    }
    var normalized: seq<Target> := [];
    for i := 0 to |s.targets|
      invariant normalized == Dedup(StoredAll(s.mode, s.targets[..i], deployments))
      invariant FirstRefusal(s.mode, s.targets, deployments) == FirstRefusal(s.mode, s.targets[i..], deployments)
    {
      var t := s.targets[i];
      assert s.targets[i..][0] == t && s.targets[i..][1..] == s.targets[i + 1..];
      var refusal := Refusal(s.mode, t, deployments);
      if refusal.Some? {
        return Err(refusal.value);
      }
      ghost var next := StoredAll(s.mode, s.targets[..i + 1], deployments);
      assert next[..i] == StoredAll(s.mode, s.targets[..i], deployments);
      var stored := Stored(s.mode, t, deployments);
      if stored !in normalized {
        normalized := normalized + [stored];
      }
    }
    assert s.targets[|s.targets|..] == [] && s.targets[..|s.targets|] == s.targets;
    r := Ok(Scope(s.mode, Sort(normalized, (x, y) => TargetLe(s.mode, x, y))));
  }

  // ----- coverage -----

  /** `deployment_covered_by_scope` */
  predicate Covers(s: Scope, d: Deployment) {
    match s.mode
    case Everything => true
    case Namespaces => exists t :: t in s.targets && t.pair == d.pair
    case Images => exists t :: t in s.targets && t.pair == d.pair && t.image == Some(d.image)
    case Deployments => exists t :: t in s.targets && t.deploymentId == Some(d.id)
  }

  function DeploymentKeyIn(mode: Mode, d: Deployment): Key {
    match mode
    case Everything => NoKey
    case Namespaces => NamespaceKey(d.pair)
    case Images => ImageKey(d.pair, d.image)
    case Deployments => DeploymentKey(d.id)
  }

  /** Coverage depends only on the set of target keys. */
  lemma CoversByKey(s: Scope, d: Deployment)
    ensures Covers(s, d) <==> s.mode.Everything? || DeploymentKeyIn(s.mode, d) in Keys(s)
  {
    if DeploymentKeyIn(s.mode, d) in Keys(s) {
      var t :| t in s.targets && KeyOf(s.mode, t) == DeploymentKeyIn(s.mode, d);
    }
  }

  // ----- normalisation is canonical -----

  lemma {:induction false} ByIdFinds(deployments: seq<Deployment>, id: string)
    ensures ById(deployments, id).Some? ==>
            ById(deployments, id).value.id == id && ById(deployments, id).value in deployments
  {
    if deployments != [] {
      ByIdFinds(deployments[..|deployments| - 1], id);
    }
  }

  lemma {:induction false} NoRefusal(mode: Mode, targets: seq<Target>, deployments: seq<Deployment>)
    ensures FirstRefusal(mode, targets, deployments).None? <==>
            forall t :: t in targets ==> Refusal(mode, t, deployments).None?
  {
    if targets != [] {
      NoRefusal(mode, targets[1..], deployments);
      assert targets == [targets[0]] + targets[1..];
    }
  }

  /** Accepted targets are stored alike exactly when their keys are equal, storing keeps
      the key and is idempotent, and what is stored is accepted again. */
  lemma StoredByKey(mode: Mode, x: Target, y: Target, deployments: seq<Deployment>)
    requires !mode.Everything? && Refusal(mode, x, deployments).None? && Refusal(mode, y, deployments).None?
    ensures var x', y' := Stored(mode, x, deployments), Stored(mode, y, deployments);
      && (x' == y' <==> KeyOf(mode, x) == KeyOf(mode, y))
      && KeyOf(mode, x') == KeyOf(mode, x)
      && Stored(mode, x', deployments) == x' && Refusal(mode, x', deployments).None?
      && (TargetLe(mode, x', y') && TargetLe(mode, y', x') ==> x' == y')
  {
    PairOrders();
    StrLeOrder();
    if mode.Deployments? {
      ByIdFinds(deployments, x.deploymentId.value);
      ByIdFinds(deployments, y.deploymentId.value);
    }
  }

  /** The targets of a normalised scope. */
  lemma NormalizedTargets(s: Scope, deployments: seq<Deployment>)
    requires WellFormed(s) && Normalize(s, deployments).Ok?
    ensures var n := Normalize(s, deployments).value;
      && n.mode == s.mode && WellFormed(n)
      && Canonical(n.targets, Elems(StoredAll(s.mode, s.targets, deployments)), (x, y) => TargetLe(s.mode, x, y))
      && AntisymmetricOn(n.targets, (x, y) => TargetLe(s.mode, x, y))
      && (forall t :: t in n.targets <==> exists b :: b in s.targets && t == Stored(s.mode, b, deployments))
  {
    var le := (x: Target, y: Target) => TargetLe(s.mode, x, y);
    var all := StoredAll(s.mode, s.targets, deployments);
    var n := Normalize(s, deployments).value;
    TargetOrder(s.mode);
    SortedDistinctCanonical(all, le);
    NoRefusal(s.mode, s.targets, deployments);
    assert forall t :: t in n.targets <==> t in Elems(n.targets);
    forall t ensures t in all <==> exists b :: b in s.targets && t == Stored(s.mode, b, deployments) {
      if b :| b in s.targets && t == Stored(s.mode, b, deployments) {
        var i :| 0 <= i < |s.targets| && s.targets[i] == b;
        assert all[i] == t;
      }
    }
    if s.targets != [] {
      assert Stored(s.mode, s.targets[0], deployments) in n.targets;
    }
    forall x, y | x in n.targets && y in n.targets && le(x, y) && le(y, x) ensures x == y {
      var a :| a in s.targets && x == Stored(s.mode, a, deployments);
      var b :| b in s.targets && y == Stored(s.mode, b, deployments);
      StoredByKey(s.mode, a, b, deployments);
    }
  }

  /** Normalising keeps the set of target keys. */
  lemma NormalizeKeepsKeys(s: Scope, deployments: seq<Deployment>)
    requires WellFormed(s) && Normalize(s, deployments).Ok?
    ensures Keys(Normalize(s, deployments).value) == Keys(s)
  {
    var n := Normalize(s, deployments).value;
    NormalizedTargets(s, deployments);
    NoRefusal(s.mode, s.targets, deployments);
    forall b | b in s.targets
      ensures Stored(s.mode, b, deployments) in n.targets
      ensures KeyOf(s.mode, Stored(s.mode, b, deployments)) == KeyOf(s.mode, b)
    {
      if !s.mode.Everything? { StoredByKey(s.mode, b, b, deployments); }
    }
    forall k | k in Keys(s) ensures k in Keys(n) {
      var b :| b in s.targets && KeyOf(s.mode, b) == k;
      assert KeyOf(n.mode, Stored(s.mode, b, deployments)) == k;
    }
    forall k | k in Keys(n) ensures k in Keys(s) {
      var t :| t in n.targets && KeyOf(n.mode, t) == k;
      var b :| b in s.targets && t == Stored(s.mode, b, deployments);
    }
  }

  /** Two accepted requests of one mode get the same stored scope, and so the same scope
      key, exactly when they name the same targets, in any order and however often. */
  lemma NormalizeIsCanonical(a: Scope, b: Scope, deployments: seq<Deployment>)
    requires WellFormed(a) && WellFormed(b) && a.mode == b.mode
    requires Normalize(a, deployments).Ok? && Normalize(b, deployments).Ok?
    ensures Normalize(a, deployments) == Normalize(b, deployments) <==> Keys(a) == Keys(b)
  {
    NormalizeKeepsKeys(a, deployments);
    NormalizeKeepsKeys(b, deployments);
    if Keys(a) == Keys(b) {
      SameKeysSameTargets(a, b, deployments);
      SameKeysSameTargets(b, a, deployments);
      NormalizedTargets(a, deployments);
      NormalizedTargets(b, deployments);
      var x, y := Normalize(a, deployments).value, Normalize(b, deployments).value;
      assert Elems(x.targets) == Elems(y.targets);
      CanonicalUnique(x.targets, y.targets, Elems(x.targets), (s, t) => TargetLe(a.mode, s, t));
    }
  }

  lemma SameKeysSameTargets(a: Scope, b: Scope, deployments: seq<Deployment>)
    requires WellFormed(a) && WellFormed(b) && a.mode == b.mode && Keys(a) == Keys(b)
    requires Normalize(a, deployments).Ok? && Normalize(b, deployments).Ok?
    ensures forall t :: t in Normalize(a, deployments).value.targets ==> t in Normalize(b, deployments).value.targets
  {
    NormalizedTargets(a, deployments);
    NormalizedTargets(b, deployments);
    NoRefusal(a.mode, a.targets, deployments);
    NoRefusal(b.mode, b.targets, deployments);
    forall t | t in Normalize(a, deployments).value.targets ensures t in Normalize(b, deployments).value.targets {
      var x :| x in a.targets && t == Stored(a.mode, x, deployments);
      assert KeyOf(a.mode, x) in Keys(b);
      var y :| y in b.targets && KeyOf(b.mode, y) == KeyOf(a.mode, x);
      StoredByKey(a.mode, x, y, deployments);
    }
  }

  /** Normalising a normalised scope changes nothing. */
  lemma NormalizeIsIdempotent(s: Scope, deployments: seq<Deployment>)
    requires WellFormed(s) && Normalize(s, deployments).Ok?
    ensures Normalize(Normalize(s, deployments).value, deployments) == Normalize(s, deployments)
  {
    var n := Normalize(s, deployments).value;
    NormalizedTargets(s, deployments);
    NoRefusal(s.mode, s.targets, deployments);
    NoRefusal(n.mode, n.targets, deployments);
    forall t | t in n.targets ensures Refusal(n.mode, t, deployments).None? {
      var b :| b in s.targets && t == Stored(s.mode, b, deployments);
      if !s.mode.Everything? { StoredByKey(s.mode, b, b, deployments); }
    }
    NormalizeKeepsKeys(s, deployments);
    NormalizeIsCanonical(s, n, deployments);
  }

  /** A deployment is covered after normalisation iff it was covered before. */
  lemma NormalizeKeepsCoverage(s: Scope, deployments: seq<Deployment>, d: Deployment)
    requires WellFormed(s) && Normalize(s, deployments).Ok?
    ensures Covers(Normalize(s, deployments).value, d) <==> Covers(s, d)
  {
    NormalizeKeepsKeys(s, deployments);
    CoversByKey(s, d);
    CoversByKey(Normalize(s, deployments).value, d);
  }

  // ----- single-team scopes -----

  /** `is_single_team_scope` */
  predicate IsSingleTeam(s: Scope) {
    !s.mode.Everything? && |set t | t in s.targets :: t.pair| == 1
  }

  /** A deployment id names one location. */
  ghost predicate IdsLocate(deployments: seq<Deployment>) {
    forall d, e :: d in deployments && e in deployments && d.id == e.id ==> d.pair == e.pair
  }

  lemma SingleTeamPair(s: Scope) returns (pair: Pair)
    requires IsSingleTeam(s)
    ensures forall t :: t in s.targets ==> t.pair == pair
  {
    var pairs := set t | t in s.targets :: t.pair;
    pair :| pair in pairs;
    assert |pairs - {pair}| == 0;
    assert pairs == {pair} + (pairs - {pair}) && pairs - {pair} == {};
    forall t | t in s.targets ensures t.pair == pair {
      assert t.pair in pairs;
    }
  }

  /** An auto-approved scope covers affected deployments of one namespace only. */
  lemma SingleTeamCoversOneNamespace(s: Scope, deployments: seq<Deployment>, d: Deployment, e: Deployment)
    requires WellFormed(s) && Normalize(s, deployments).Ok? && IdsLocate(deployments)
    requires IsSingleTeam(Normalize(s, deployments).value)
    requires d in deployments && Covers(Normalize(s, deployments).value, d)
    requires e in deployments && Covers(Normalize(s, deployments).value, e)
    ensures d.pair == e.pair
  {
    var pair := SingleTeamPair(Normalize(s, deployments).value);
    CoveredIsOnPair(s, deployments, d, pair);
    CoveredIsOnPair(s, deployments, e, pair);
  }

  lemma CoveredIsOnPair(s: Scope, deployments: seq<Deployment>, d: Deployment, pair: Pair)
    requires WellFormed(s) && Normalize(s, deployments).Ok? && IdsLocate(deployments) && !s.mode.Everything?
    requires d in deployments && Covers(Normalize(s, deployments).value, d)
    requires forall t :: t in Normalize(s, deployments).value.targets ==> t.pair == pair
    ensures d.pair == pair
  {
    NormalizedTargets(s, deployments);
    NoRefusal(s.mode, s.targets, deployments);
    var n := Normalize(s, deployments).value;
    if s.mode.Deployments? {
      var t :| t in n.targets && t.deploymentId == Some(d.id);
      var b :| b in s.targets && t == Stored(s.mode, b, deployments);
      assert Refusal(s.mode, b, deployments).None?;
      ByIdFinds(deployments, b.deploymentId.value);
    }
  }
}
