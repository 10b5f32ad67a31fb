/** CVE subscriptions: the stored snapshot of one subscriber and the hourly diff against it
    (services/cve_subscription_service.py). */
module Subscriptions {
  import opened Wrappers
  import opened Ordering
  import opened Pairs
  import opened Text

  const STATE_VERSION := 1
  const EPSS_NOTIFY_DELTA: real := 0.05

  /** What a subscriber may see: every namespace, or a set of pairs. */
  datatype Visibility = Everywhere | Only(pairs: set<Pair>)

  predicate Sees(v: Visibility, p: Pair) {
    v.Everywhere? || p in v.pairs
  }

  /** The pairs visible under both. */
  function Meet(v: Visibility, w: Visibility): (r: Visibility)
    ensures forall p :: Sees(r, p) <==> Sees(v, p) && Sees(w, p)
  {
    match (v, w)
    case (Everywhere, _) => w
    case (_, Everywhere) => v
    case (Only(a), Only(b)) => Only(a * b)
  }

  /** One StackRox row of the CVE: a location with its effective scores. */
  datatype Row = Row(
    pair: Pair, severity: Option<int>, cvss: Option<real>, epss: Option<real>,
    images: seq<string>, fixable: seq<string>)

  datatype Scores = Scores(severity: Option<int>, cvss: Option<real>, epssAnchor: Option<real>)

  datatype Location = Location(pair: Pair, images: seq<string>, fixable: seq<string>)

  datatype Scope = Wildcard | Listed(pairs: seq<Pair>)

  datatype State = State(version: int, scope: Scope, scores: Scores, locations: seq<Location>)

  /** Values are shown with one decimal, so parameters hold tenths; None is shown as "-". */
  datatype Event =
    | ScoresChanged(cvssOld: Option<int>, cvss: Option<int>, epssOld: Option<int>, epss: Option<int>, scope: seq<Pair>)
    | NewImages(scope: seq<Pair>)
    | FixAvailable(scope: seq<Pair>)
    | NoLongerAffected(scope: seq<Pair>)

  // ----- build_state -----

  function MaxOrNone<T>(values: seq<Option<T>>, le: (T, T) -> bool): Option<T> {
    if values == [] then None
    else
      var m := MaxOrNone(values[..|values| - 1], le);
      match (m, values[|values| - 1])
      case (_, None) => m
      case (None, x) => x
      case (Some(x), Some(y)) => if le(y, x) then m else Some(y)
  }

  /** The pull spec without a digest pin. */
  function ImageIdentity(pullSpec: string): string {
    pullSpec[..Find(pullSpec, '@')]
  }

  function Identities(images: seq<string>): seq<string> {
    seq(|images|, i requires 0 <= i < |images| => ImageIdentity(images[i]))
  }

  function LocationOf(row: Row): Location {
    Location(row.pair, SortedDistinct(Identities(row.images), StrLe), SortedDistinct(row.fixable, StrLe))
  }

  predicate LocationLe(x: Location, y: Location) {
    ByCluster(x.pair, y.pair)
  }

  lemma LocationOrder()
    ensures TotalPreorder(LocationLe)
  {
    PairOrders();
  }

  function ScoresOf(rows: seq<Row>): Scores {
    Scores(MaxOrNone(seq(|rows|, i requires 0 <= i < |rows| => rows[i].severity), (x, y) => x <= y),
           MaxOrNone(seq(|rows|, i requires 0 <= i < |rows| => rows[i].cvss), (x, y) => x <= y),
           MaxOrNone(seq(|rows|, i requires 0 <= i < |rows| => rows[i].epss), (x, y) => x <= y))
  }

  function VisibleLocations(rows: seq<Row>, v: Visibility): seq<Location> {
    if rows == [] then []
    else
      var n := |rows| - 1;
      VisibleLocations(rows[..n], v) + if Sees(v, rows[n].pair) then [LocationOf(rows[n])] else []
  }

  ghost function ScopeOf(v: Visibility): Scope {
    match v
    case Everywhere => Wildcard
    case Only(pairs) => Listed(SortedOf(pairs, ByNamespace))
  }

  ghost function Build(rows: seq<Row>, v: Visibility): State {
    State(STATE_VERSION, ScopeOf(v), ScoresOf(rows), Sort(VisibleLocations(rows, v), LocationLe))
  }

  /** `build_state` */
  method BuildState(rows: seq<Row>, v: Visibility) returns (state: State)
    ensures state == Build(rows, v)
  {
    var locations: seq<Location> := [];
    for i := 0 to |rows|
      invariant locations == VisibleLocations(rows[..i], v)
    {
      assert rows[..i + 1][..i] == rows[..i];
      if Sees(v, rows[i].pair) {
        locations := locations + [LocationOf(rows[i])];
      }
    }
    assert rows[..|rows|] == rows;
    var scope := Wildcard;
    if v.Only? {
      var list := ListPairs(v.pairs);
      PairOrders();
      SortIsSortedOf(list, ByNamespace);
      scope := Listed(Sort(list, ByNamespace));
    }
    state := State(STATE_VERSION, scope, ScoresOf(rows), Sort(locations, LocationLe));
  }

  // ----- diff_state -----

  function RoundHalfEven(x: real): int {
    var f, d := x.Floor, x - x.Floor as real;
    if d < 0.5 || (d == 0.5 && f % 2 == 0) then f else f + 1
  }

  function Tenths(x: Option<real>): Option<int> {
    match x case None => None case Some(r) => Some(RoundHalfEven(10.0 * r))
  }

  function PercentTenths(x: Option<real>): Option<int> {
    match x case None => None case Some(r) => Some(RoundHalfEven(1000.0 * r))
  }

  predicate Crosses(old_: real, new_: real, threshold: real) {
    threshold > 0.0 && (old_ >= threshold) != (new_ >= threshold)
  }

  function Abs(x: real): real {
    if x < 0.0 then -x else x
  }

  /** The EPSS value moved far enough from the anchor, or to the other side of the threshold. */
  predicate EpssMoved(anchor: Option<real>, epss: Option<real>, threshold: real) {
    anchor.Some? && epss.Some?
    && (Abs(epss.value - anchor.value) >= EPSS_NOTIFY_DELTA || Crosses(anchor.value, epss.value, threshold))
  }

  /** `_diff_scores`: the scores to store, and whether they changed. */
  function DiffScores(old_: Scores, new_: Scores, threshold: real): (Scores, bool) {
    if new_.severity.None? && new_.cvss.None? && new_.epssAnchor.None? then (old_, false)
    else
      var severityChanged := old_.severity.Some? && new_.severity.Some? && old_.severity != new_.severity;
      var cvssChanged := old_.cvss.Some? && new_.cvss.Some? && Tenths(old_.cvss) != Tenths(new_.cvss);
      var changed := severityChanged || cvssChanged || EpssMoved(old_.epssAnchor, new_.epssAnchor, threshold);
      (Scores(new_.severity, new_.cvss, if old_.epssAnchor.None? || changed then new_.epssAnchor else old_.epssAnchor),
       changed)
  }

  function PairsOf(locations: seq<Location>): seq<Pair> {
    seq(|locations|, i requires 0 <= i < |locations| => locations[i].pair)
  }

  function ByPair(locations: seq<Location>): map<Pair, Location> {
    if locations == [] then map[]
    else
      var n := |locations| - 1;
      ByPair(locations[..n])[locations[n].pair := locations[n]]
  }

  predicate InScope(scope: Scope, p: Pair) {
    scope.Wildcard? || p in scope.pairs
  }

  predicate Gains(now: seq<string>, before: seq<string>) {
    exists x :: x in now && x !in before
  }

  /** Newly affected inside the old scope, or running an image not seen there before. */
  predicate IsNewImage(old_: State, new_: State, p: Pair) {
    var was, is_ := ByPair(old_.locations), ByPair(new_.locations);
    p in is_ && if p in was then Gains(is_[p].images, was[p].images) else InScope(old_.scope, p)
  }

  predicate IsNewFix(old_: State, new_: State, p: Pair) {
    var was, is_ := ByPair(old_.locations), ByPair(new_.locations);
    p in is_ && p in was && Gains(is_[p].fixable, was[p].fixable)
  }

  predicate IsGone(old_: State, new_: State, p: Pair) {
    p in ByPair(old_.locations) && p !in ByPair(new_.locations) && InScope(new_.scope, p)
  }

  ghost function NewImagePairs(old_: State, new_: State): set<Pair> {
    set p | p in ByPair(new_.locations) && IsNewImage(old_, new_, p)
  }

  ghost function NewFixPairs(old_: State, new_: State): set<Pair> {
    set p | p in ByPair(new_.locations) && IsNewFix(old_, new_, p)
  }

  ghost function GonePairs(old_: State, new_: State): set<Pair> {
    set p | p in ByPair(old_.locations) && IsGone(old_, new_, p)
  }

  /** At most one event of each kind, scoped to all pairs that produced it. */
  ghost function LocationEvents(old_: State, new_: State): seq<Event> {
    var newImages, newFixes, gone := NewImagePairs(old_, new_), NewFixPairs(old_, new_), GonePairs(old_, new_);
    (if newImages != {} then [NewImages(SortedOf(newImages, ByCluster))] else [])
    + (if newFixes != {} then [FixAvailable(SortedOf(newFixes, ByCluster))] else [])
    + (if gone != {} then [NoLongerAffected(SortedOf(gone, ByCluster))] else [])
  }

  function ScoreEvents(old_: State, new_: State, threshold: real): seq<Event> {
    var (stored, changed) := DiffScores(old_.scores, new_.scores, threshold);
    if changed && new_.locations != [] then
      [ScoresChanged(Tenths(old_.scores.cvss), Tenths(stored.cvss), PercentTenths(old_.scores.epssAnchor),
                     PercentTenths(new_.scores.epssAnchor), PairsOf(new_.locations))]
    else []
  }

  /** A change the subscriber cannot see keeps the anchor. */
  function StoredScores(old_: State, new_: State, threshold: real): Scores {
    var (stored, changed) := DiffScores(old_.scores, new_.scores, threshold);
    if changed && new_.locations == [] then stored.(epssAnchor := old_.scores.epssAnchor) else stored
  }

  ghost function Diff(old_: State, new_: State, threshold: real): (State, seq<Event>) {
    if old_.version != STATE_VERSION then (new_, [])
    else (new_.(scores := StoredScores(old_, new_, threshold)),
          ScoreEvents(old_, new_, threshold) + LocationEvents(old_, new_))
  }

  method GainsAny(now: seq<string>, before: seq<string>) returns (b: bool)
    ensures b == Gains(now, before)
  {
    for i := 0 to |now|
      invariant forall j :: 0 <= j < i ==> now[j] in before
    {
      if now[i] !in before {
        return true;
      }
    }
    return false;
  }

  method SortedPairs(pairs: seq<Pair>, ghost elems: set<Pair>) returns (sorted: seq<Pair>)
    requires Distinct(pairs) && Elems(pairs) == elems
    ensures sorted == SortedOf(elems, ByCluster)
    ensures pairs == [] <==> elems == {}
  {
    PairOrders();
    SortIsSortedOf(pairs, ByCluster);
    sorted := Sort(pairs, ByCluster);
    assert pairs != [] ==> pairs[0] in Elems(pairs);
  }

  /** `diff_state`: one pass over the new locations, one over the old. */
  method DiffState(old_: State, new_: State, threshold: real) returns (stored: State, events: seq<Event>)
    ensures (stored, events) == Diff(old_, new_, threshold)
  {
    if old_.version != STATE_VERSION {
      return new_, [];
    }
    events := [];
    var (scores, changed) := DiffScores(old_.scores, new_.scores, threshold);
    if changed && new_.locations != [] {
      events := [ScoresChanged(Tenths(old_.scores.cvss), Tenths(scores.cvss), PercentTenths(old_.scores.epssAnchor),
                               PercentTenths(new_.scores.epssAnchor), PairsOf(new_.locations))];
    } else if changed {
      scores := scores.(epssAnchor := old_.scores.epssAnchor);
    }
    var locationEvents := LocationEventList(old_, new_);
    events := events + locationEvents;
    stored := new_.(scores := scores);
  }

  method LocationEventList(old_: State, new_: State) returns (events: seq<Event>)
    ensures events == LocationEvents(old_, new_)
  {
    var newImages, newFixes, gone := LocationPairs(old_, new_);
    var images := SortedPairs(newImages, NewImagePairs(old_, new_));
    var fixes := SortedPairs(newFixes, NewFixPairs(old_, new_));
    var left := SortedPairs(gone, GonePairs(old_, new_));
    events := if newImages != [] then [NewImages(images)] else [];
    events := events + if newFixes != [] then [FixAvailable(fixes)] else [];
    events := events + if gone != [] then [NoLongerAffected(left)] else [];
  }

  method LocationPairs(old_: State, new_: State) returns (newImages: seq<Pair>, newFixes: seq<Pair>, gone: seq<Pair>)
    ensures Distinct(newImages) && Elems(newImages) == NewImagePairs(old_, new_)
    ensures Distinct(newFixes) && Elems(newFixes) == NewFixPairs(old_, new_)
    ensures Distinct(gone) && Elems(gone) == GonePairs(old_, new_)
  {
    var was, is_ := ByPair(old_.locations), ByPair(new_.locations);
    newImages, newFixes, gone := [], [], [];
    var rest := is_.Keys;
    while rest != {}
      invariant rest <= is_.Keys && Distinct(newImages) && Distinct(newFixes)
      invariant Elems(newImages) == set p | p in is_.Keys - rest && IsNewImage(old_, new_, p)
      invariant Elems(newFixes) == set p | p in is_.Keys - rest && IsNewFix(old_, new_, p)
      decreases rest
    {
      var p :| p in rest;
      assert p !in Elems(newImages) && p !in Elems(newFixes);
      ghost var beforeImages, beforeFixes := Elems(newImages), Elems(newFixes);
      if p !in was {
        if InScope(old_.scope, p) { newImages := newImages + [p]; }
      } else {
        var moreImages := GainsAny(is_[p].images, was[p].images);
        if moreImages { newImages := newImages + [p]; }
        var moreFixes := GainsAny(is_[p].fixable, was[p].fixable);
        if moreFixes { newFixes := newFixes + [p]; }
      }
      assert Elems(newImages) == beforeImages + if IsNewImage(old_, new_, p) then {p} else {};
      assert Elems(newFixes) == beforeFixes + if IsNewFix(old_, new_, p) then {p} else {};
      rest := rest - {p};
    }
    rest := was.Keys;
    while rest != {}
      invariant rest <= was.Keys && Distinct(gone)
      invariant Elems(gone) == set p | p in was.Keys - rest && IsGone(old_, new_, p)
      decreases rest
    {
      var p :| p in rest;
      assert p !in Elems(gone);
      ghost var before := Elems(gone);
      if p !in is_ && InScope(new_.scope, p) {
        gone := gone + [p];
      }
      assert Elems(gone) == before + if IsGone(old_, new_, p) then {p} else {};
      rest := rest - {p};
    }
  }

  // ----- access changes are not data changes -----

  /** The last row of each pair, whoever may see it. */
  function Affected(rows: seq<Row>): map<Pair, Location> {
    ByPair(VisibleLocations(rows, Everywhere))
  }

  lemma {:induction false} ByPairIsLastMatch(locations: seq<Location>, p: Pair)
    ensures var same := Filter(locations, (l: Location) => l.pair == p);
      if same == [] then p !in ByPair(locations)
      else p in ByPair(locations) && ByPair(locations)[p] == same[|same| - 1]
  {
    if locations != [] {
      var n := |locations| - 1;
      ByPairIsLastMatch(locations[..n], p);
      FilterAppend(locations[..n], locations[n], (l: Location) => l.pair == p);
      assert locations == locations[..n] + [locations[n]];
    }
  }

  lemma {:induction false} FilterAppend<T>(s: seq<T>, x: T, keep: T -> bool)
    ensures Filter(s + [x], keep) == Filter(s, keep) + if keep(x) then [x] else []
  {
    if s == [] {
      assert s + [x] == [x] && [x][1..] == [];
    } else {
      FilterAppend(s[1..], x, keep);
      assert (s + [x])[1..] == s[1..] + [x];
    }
  }

  lemma {:induction false} VisibleMatches(rows: seq<Row>, v: Visibility, p: Pair)
    ensures Filter(VisibleLocations(rows, v), (l: Location) => l.pair == p) ==
            if Sees(v, p) then Filter(VisibleLocations(rows, Everywhere), (l: Location) => l.pair == p) else []
  {
    if rows != [] {
      var n := |rows| - 1;
      var keep := (l: Location) => l.pair == p;
      var seen, all := VisibleLocations(rows[..n], v), VisibleLocations(rows[..n], Everywhere);
      var last := LocationOf(rows[n]);
      VisibleMatches(rows[..n], v, p);
      FilterAppend(seen, last, keep);
      FilterAppend(all, last, keep);
      assert VisibleLocations(rows, Everywhere) == all + [last];
      assert VisibleLocations(rows, v) == if Sees(v, last.pair) then seen + [last] else seen;
    }
  }

  /** A built state holds, for each visible affected pair, that pair's location. */
  lemma BuiltLocations(rows: seq<Row>, v: Visibility, p: Pair)
    ensures p in ByPair(Build(rows, v).locations) <==> p in Affected(rows) && Sees(v, p)
    ensures p in ByPair(Build(rows, v).locations) ==> ByPair(Build(rows, v).locations)[p] == Affected(rows)[p]
  {
    var keep := (l: Location) => l.pair == p;
    LocationOrder();
    SortStable(VisibleLocations(rows, v), LocationLe, keep);
    VisibleMatches(rows, v, p);
    ByPairIsLastMatch(Build(rows, v).locations, p);
    ByPairIsLastMatch(VisibleLocations(rows, Everywhere), p);
  }

  lemma BuiltScope(rows: seq<Row>, v: Visibility, p: Pair)
    ensures InScope(Build(rows, v).scope, p) <==> Sees(v, p)
  {
    if v.Only? {
      PairOrders();
      SortedOfCanonical(v.pairs, ByNamespace);
      assert p in SortedOf(v.pairs, ByNamespace) <==> p in Elems(SortedOf(v.pairs, ByNamespace));
    }
  }

  /** The three location findings, stated on rows and visibilities alone. */
  lemma Findings(rows1: seq<Row>, v1: Visibility, rows2: seq<Row>, v2: Visibility, p: Pair)
    ensures var was, is_ := Affected(rows1), Affected(rows2);
      var both := Sees(v1, p) && Sees(v2, p);
      && (IsNewImage(Build(rows1, v1), Build(rows2, v2), p) <==>
            both && p in is_ && (p !in was || Gains(is_[p].images, was[p].images)))
      && (IsNewFix(Build(rows1, v1), Build(rows2, v2), p) <==>
            both && p in is_ && p in was && Gains(is_[p].fixable, was[p].fixable))
      && (IsGone(Build(rows1, v1), Build(rows2, v2), p) <==> both && p in was && p !in is_)
  {
    BuiltLocations(rows1, v1, p);
    BuiltLocations(rows2, v2, p);
    BuiltScope(rows1, v1, p);
    BuiltScope(rows2, v2, p);
  }

  /** Access changes never look like data changes: the location events are those of the
      pairs visible on both sides. */
  lemma AccessChangesAreSilent(rows1: seq<Row>, v1: Visibility, rows2: seq<Row>, v2: Visibility)
    ensures LocationEvents(Build(rows1, v1), Build(rows2, v2)) ==
            LocationEvents(Build(rows1, Meet(v1, v2)), Build(rows2, Meet(v1, v2)))
  {
    var o, n := Build(rows1, v1), Build(rows2, v2);
    var o', n' := Build(rows1, Meet(v1, v2)), Build(rows2, Meet(v1, v2));
    forall p
      ensures IsNewImage(o, n, p) == IsNewImage(o', n', p)
      ensures IsNewFix(o, n, p) == IsNewFix(o', n', p)
      ensures IsGone(o, n, p) == IsGone(o', n', p)
    {
      Findings(rows1, v1, rows2, v2, p);
      Findings(rows1, Meet(v1, v2), rows2, Meet(v1, v2), p);
    }
    SameFindings(o, n, o', n');
  }

  lemma SameFindings(o: State, n: State, o': State, n': State)
    requires forall p :: IsNewImage(o, n, p) == IsNewImage(o', n', p)
    requires forall p :: IsNewFix(o, n, p) == IsNewFix(o', n', p)
    requires forall p :: IsGone(o, n, p) == IsGone(o', n', p)
    ensures LocationEvents(o, n) == LocationEvents(o', n')
  {
    forall p ensures IsNewImage(o, n, p) ==> p in ByPair(n.locations) {}
    forall p ensures IsNewImage(o', n', p) ==> p in ByPair(n'.locations) {}
    assert NewImagePairs(o, n) == NewImagePairs(o', n');
    assert NewFixPairs(o, n) == NewFixPairs(o', n');
    assert GonePairs(o, n) == GonePairs(o', n');
  }

  /** With unchanged rows, no change of visibility produces a location event. */
  lemma SameRowsAreSilent(rows: seq<Row>, v1: Visibility, v2: Visibility)
    ensures LocationEvents(Build(rows, v1), Build(rows, v2)) == []
  {
    var o, n := Build(rows, v1), Build(rows, v2);
    forall p ensures !IsNewImage(o, n, p) && !IsNewFix(o, n, p) && !IsGone(o, n, p) {
      Findings(rows, v1, rows, v2, p);
    }
    assert NewImagePairs(o, n) == {} && NewFixPairs(o, n) == {} && GonePairs(o, n) == {};
  }

  /** Location events read only the scope and the locations of the old state. */
  lemma ScoresDoNotMatter(o: State, o': State, n: State)
    requires o.scope == o'.scope && o.locations == o'.locations
    ensures LocationEvents(o, n) == LocationEvents(o', n)
  {
    SameFindings(o, n, o', n);
  }
}
