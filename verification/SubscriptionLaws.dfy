/** What a snapshot holds and what one diff reports, told on rows and on the fields of the
    two states (services/cve_subscription_service.py). */
module SubscriptionLaws {
  import opened Wrappers
  import opened Ordering
  import opened Pairs
  import opened Text
  import opened Subscriptions

  // ----- the snapshot -----

  ghost predicate IsGreatest<T(!new)>(m: Option<T>, values: seq<Option<T>>, le: (T, T) -> bool) {
    && (m.None? <==> forall v :: v in values ==> v.None?)
    && (m.Some? ==> m in values && forall x :: Some(x) in values ==> le(x, m.value))
  }

  lemma {:induction false} MaxIsGreatest<T(!new)>(values: seq<Option<T>>, le: (T, T) -> bool)
    requires TotalPreorder(le)
    ensures IsGreatest(MaxOrNone(values, le), values, le)
  {
    if values != [] {
      var n := |values| - 1;
      MaxIsGreatest(values[..n], le);
      assert values == values[..n] + [values[n]];
      assert forall x, y :: le(x, y) || le(y, x);
    }
  }

  /** Each score of a snapshot is that of some row, and no row has a higher one, whether the
      subscriber sees the row or not. */
  lemma ScoresAreGreatest(rows: seq<Row>, v: Visibility)
    ensures var scores := Build(rows, v).scores;
      && (scores.severity.None? <==> forall r :: r in rows ==> r.severity.None?)
      && (scores.cvss.None? <==> forall r :: r in rows ==> r.cvss.None?)
      && (scores.epssAnchor.None? <==> forall r :: r in rows ==> r.epss.None?)
      && (scores.severity.Some? ==> exists r :: r in rows && r.severity == scores.severity)
      && (scores.cvss.Some? ==> exists r :: r in rows && r.cvss == scores.cvss)
      && (scores.epssAnchor.Some? ==> exists r :: r in rows && r.epss == scores.epssAnchor)
    ensures var scores := Build(rows, v).scores;
      forall r :: r in rows ==>
        && (r.severity.Some? ==> r.severity.value <= scores.severity.value)
        && (r.cvss.Some? ==> r.cvss.value <= scores.cvss.value)
        && (r.epss.Some? ==> r.epss.value <= scores.epssAnchor.value)
  {
    SeverityIsGreatest(rows);
    CvssIsGreatest(rows);
    EpssIsGreatest(rows);
  }

  lemma SeverityIsGreatest(rows: seq<Row>)
    ensures var m := ScoresOf(rows).severity;
      && (m.None? <==> forall r :: r in rows ==> r.severity.None?)
      && (m.Some? ==> exists r :: r in rows && r.severity == m)
      && forall r :: r in rows && r.severity.Some? ==> r.severity.value <= m.value
  {
    var values := seq(|rows|, i requires 0 <= i < |rows| => rows[i].severity);
    MaxIsGreatest(values, (x, y) => x <= y);
    assert forall i :: 0 <= i < |rows| ==> values[i] == rows[i].severity;
    forall r | r in rows ensures r.severity in values {
      var i :| 0 <= i < |rows| && rows[i] == r;
      assert values[i] == r.severity;
    }
  }

  lemma CvssIsGreatest(rows: seq<Row>)
    ensures var m := ScoresOf(rows).cvss;
      && (m.None? <==> forall r :: r in rows ==> r.cvss.None?)
      && (m.Some? ==> exists r :: r in rows && r.cvss == m)
      && forall r :: r in rows && r.cvss.Some? ==> r.cvss.value <= m.value
  {
    var values := seq(|rows|, i requires 0 <= i < |rows| => rows[i].cvss);
    MaxIsGreatest(values, (x, y) => x <= y);
    assert forall i :: 0 <= i < |rows| ==> values[i] == rows[i].cvss;
    forall r | r in rows ensures r.cvss in values {
      var i :| 0 <= i < |rows| && rows[i] == r;
      assert values[i] == r.cvss;
    }
  }

  lemma EpssIsGreatest(rows: seq<Row>)
    ensures var m := ScoresOf(rows).epssAnchor;
      && (m.None? <==> forall r :: r in rows ==> r.epss.None?)
      && (m.Some? ==> exists r :: r in rows && r.epss == m)
      && forall r :: r in rows && r.epss.Some? ==> r.epss.value <= m.value
  {
    var values := seq(|rows|, i requires 0 <= i < |rows| => rows[i].epss);
    MaxIsGreatest(values, (x, y) => x <= y);
    assert forall i :: 0 <= i < |rows| ==> values[i] == rows[i].epss;
    forall r | r in rows ensures r.epss in values {
      var i :| 0 <= i < |rows| && rows[i] == r;
      assert values[i] == r.epss;
    }
  }

  /** The part of a pull spec before a digest pin. */
  predicate IsUnpinned(x: string, pullSpec: string) {
    '@' !in x && (x == pullSpec || x + "@" <= pullSpec)
  }

  lemma IdentityIsUnpinned(pullSpec: string, x: string)
    ensures IsUnpinned(x, pullSpec) <==> x == ImageIdentity(pullSpec)
  {
    var k := Find(pullSpec, '@');
    if IsUnpinned(x, pullSpec) && x != pullSpec {
      assert pullSpec[|x|] == (x + "@")[|x|] == '@';
      assert x == pullSpec[..|x|];
      forall i | 0 <= i < |x| ensures pullSpec[i] != '@' {
        assert x[i] in x;
      }
    }
    if k < |pullSpec| {
      assert pullSpec[..k] + "@" == pullSpec[..k + 1];
    }
  }

  /** The snapshot of one row: its images without digests and its fixable components, each
      listed once in lexical order. */
  ghost predicate IsSnapshotOf(l: Location, r: Row) {
    && l.pair == r.pair
    && Sorted(l.images, StrLe) && Distinct(l.images)
    && (forall x :: x in l.images <==> exists image :: image in r.images && IsUnpinned(x, image))
    && Sorted(l.fixable, StrLe) && Distinct(l.fixable)
    && forall x :: x in l.fixable <==> x in r.fixable
  }

  lemma ListedOnce(s: seq<string>)
    ensures var l := SortedDistinct(s, StrLe);
      Sorted(l, StrLe) && Distinct(l) && forall x :: x in l <==> x in s
  {
    StrLeOrder();
    SortedDistinctCanonical(s, StrLe);
    forall x ensures x in SortedDistinct(s, StrLe) <==> x in s {
      assert x in SortedDistinct(s, StrLe) <==> x in Elems(SortedDistinct(s, StrLe));
      assert x in s <==> x in Elems(s);
    }
  }

  lemma LocationIsSnapshot(r: Row)
    ensures IsSnapshotOf(LocationOf(r), r)
  {
    var names := Identities(r.images);
    ListedOnce(names);
    ListedOnce(r.fixable);
    forall x ensures x in names <==> exists image :: image in r.images && IsUnpinned(x, image) {
      if x in names {
        var i :| 0 <= i < |names| && names[i] == x;
        IdentityIsUnpinned(r.images[i], x);
      }
      if image :| image in r.images && IsUnpinned(x, image) {
        IdentityIsUnpinned(image, x);
        var i :| 0 <= i < |r.images| && r.images[i] == image;
        assert names[i] == x;
      }
    }
  }

  lemma {:induction false} SeenRows(rows: seq<Row>, v: Visibility, l: Location)
    ensures l in VisibleLocations(rows, v) <==> exists r :: r in rows && Sees(v, r.pair) && l == LocationOf(r)
  {
    if rows != [] {
      var n := |rows| - 1;
      SeenRows(rows[..n], v, l);
      assert rows == rows[..n] + [rows[n]];
    }
  }

  ghost predicate SeesSnapshot(rows: seq<Row>, v: Visibility, l: Location) {
    exists r :: r in rows && Sees(v, r.pair) && IsSnapshotOf(l, r)
  }

  ghost predicate HoldsSnapshot(locations: seq<Location>, r: Row) {
    exists l :: l in locations && IsSnapshotOf(l, r)
  }

  /** The snapshot holds exactly the rows the subscriber sees, by cluster and namespace. */
  lemma SnapshotHoldsSeenRows(rows: seq<Row>, v: Visibility)
    ensures var locations := Build(rows, v).locations;
      && (forall l :: l in locations ==> SeesSnapshot(rows, v, l))
      && (forall r :: r in rows && Sees(v, r.pair) ==> HoldsSnapshot(locations, r))
      && forall i, j :: 0 <= i < j < |locations| ==> ByCluster(locations[i].pair, locations[j].pair)
  {
    var seen := VisibleLocations(rows, v);
    var locations := Build(rows, v).locations;
    SortPermutes(seen, LocationLe);
    forall l | l in locations ensures SeesSnapshot(rows, v, l) {
      SeenIsSnapshot(rows, v, l);
    }
    forall r | r in rows && Sees(v, r.pair) ensures HoldsSnapshot(locations, r) {
      SeenRows(rows, v, LocationOf(r));
      LocationIsSnapshot(r);
      assert LocationOf(r) in locations;
    }
    SnapshotIsSorted(rows, v);
  }

  lemma SeenIsSnapshot(rows: seq<Row>, v: Visibility, l: Location)
    requires l in VisibleLocations(rows, v)
    ensures SeesSnapshot(rows, v, l)
  {
    SeenRows(rows, v, l);
    var r :| r in rows && Sees(v, r.pair) && l == LocationOf(r);
    LocationIsSnapshot(r);
  }

  lemma SnapshotIsSorted(rows: seq<Row>, v: Visibility)
    ensures var locations := Build(rows, v).locations;
      forall i, j :: 0 <= i < j < |locations| ==> ByCluster(locations[i].pair, locations[j].pair)
  {
    LocationOrder();
    SortSorts(VisibleLocations(rows, v), LocationLe);
  }

  /** The stored scope is everything, or exactly the visible pairs by namespace and cluster. */
  lemma ScopeIsListed(rows: seq<Row>, v: Visibility)
    ensures var scope := Build(rows, v).scope;
      match v
      case Everywhere => scope == Wildcard
      case Only(pairs) =>
        && scope.Listed? && Sorted(scope.pairs, ByNamespace) && Distinct(scope.pairs)
        && forall p :: p in scope.pairs <==> p in pairs
  {
    if v.Only? {
      PairOrders();
      SortedOfCanonical(v.pairs, ByNamespace);
      var list := SortedOf(v.pairs, ByNamespace);
      assert forall p :: p in list <==> p in Elems(list);
    }
  }

  // ----- the score event -----

  /** Rounding gives a nearest integer, the even one of two. */
  lemma RoundIsNearest(x: real)
    ensures var r := RoundHalfEven(x);
      && r as real - 0.5 <= x <= r as real + 0.5
      && (x == r as real - 0.5 || x == r as real + 0.5 ==> r % 2 == 0)
  {
    var f := x.Floor;
    assert f as real <= x < f as real + 1.0;
  }

  /** A shown value is the stored one times `scale`, rounded. */
  predicate IsShown(shown: Option<int>, value: Option<real>, scale: real) {
    && (shown.None? <==> value.None?)
    && (shown.Some? ==>
          && shown.value as real - 0.5 <= scale * value.value <= shown.value as real + 0.5)
  }

  /** Both sides of the threshold, if there is one. */
  predicate OnOtherSide(a: real, b: real, threshold: real) {
    threshold > 0.0 && ((a < threshold <= b) || (b < threshold <= a))
  }

  /** Another severity, another CVSS at one decimal, or an EPSS value that moved by five
      points or to the other side of the threshold; each only between known values. */
  predicate ScoresMoved(o: Scores, n: Scores, threshold: real) {
    || (o.severity.Some? && n.severity.Some? && o.severity.value != n.severity.value)
    || (o.cvss.Some? && n.cvss.Some? && RoundHalfEven(10.0 * o.cvss.value) != RoundHalfEven(10.0 * n.cvss.value))
    || (o.epssAnchor.Some? && n.epssAnchor.Some?
        && (n.epssAnchor.value - o.epssAnchor.value >= 0.05 || o.epssAnchor.value - n.epssAnchor.value >= 0.05
            || OnOtherSide(o.epssAnchor.value, n.epssAnchor.value, threshold)))
  }

  lemma ChangedIffMoved(o: Scores, n: Scores, threshold: real)
    ensures DiffScores(o, n, threshold).1 <==> ScoresMoved(o, n, threshold)
  {
  }

  /** Exactly the score events of a diff: one iff some location is visible and the scores
      moved. It shows the old and the new CVSS, the EPSS anchor and the new EPSS, and its
      scope is the visible locations in order. */
  lemma ScoreEventIff(o: State, n: State, threshold: real)
    requires o.version == STATE_VERSION
    ensures var sent := Filter(Diff(o, n, threshold).1, (e: Event) => e.ScoresChanged?);
      if n.locations != [] && ScoresMoved(o.scores, n.scores, threshold) then
        && |sent| == 1 && sent[0].ScoresChanged?
        && IsShown(sent[0].cvssOld, o.scores.cvss, 10.0) && IsShown(sent[0].cvss, n.scores.cvss, 10.0)
        && IsShown(sent[0].epssOld, o.scores.epssAnchor, 1000.0) && IsShown(sent[0].epss, n.scores.epssAnchor, 1000.0)
        && |sent[0].scope| == |n.locations|
        && forall i :: 0 <= i < |n.locations| ==> sent[0].scope[i] == n.locations[i].pair
      else sent == []
  {
    var isScore := (e: Event) => e.ScoresChanged?;
    var scoreEvents, locationEvents := ScoreEvents(o, n, threshold), LocationEvents(o, n);
    ChangedIffMoved(o.scores, n.scores, threshold);
    FilterBoth(scoreEvents, locationEvents, isScore);
    NoneKept(locationEvents, isScore);
    AllKept(scoreEvents, isScore);
    if n.locations != [] && ScoresMoved(o.scores, n.scores, threshold) {
      ShownAre(o.scores.cvss, o.scores.epssAnchor);
      ShownAre(n.scores.cvss, n.scores.epssAnchor);
    }
  }

  lemma ShownAre(cvss: Option<real>, epss: Option<real>)
    ensures IsShown(Tenths(cvss), cvss, 10.0) && IsShown(PercentTenths(epss), epss, 1000.0)
  {
    if cvss.Some? { RoundIsNearest(10.0 * cvss.value); }
    if epss.Some? { RoundIsNearest(1000.0 * epss.value); }
  }

  lemma {:induction false} FilterBoth<T(!new)>(a: seq<T>, b: seq<T>, keep: T -> bool)
    ensures Filter(a + b, keep) == Filter(a, keep) + Filter(b, keep)
    decreases |a|
  {
    if a == [] {
      assert a + b == b;
    } else {
      assert (a + b)[1..] == a[1..] + b && (a + b)[0] == a[0];
      FilterBoth(a[1..], b, keep);
      var head := if keep(a[0]) then [a[0]] else [];
      assert Filter(a, keep) == head + Filter(a[1..], keep);
      assert head + (Filter(a[1..], keep) + Filter(b, keep)) == head + Filter(a[1..], keep) + Filter(b, keep);
    }
  }

  lemma {:induction false} NoneKept<T(!new)>(s: seq<T>, keep: T -> bool)
    requires forall x :: x in s ==> !keep(x)
    ensures Filter(s, keep) == []
  {
    if s != [] {
      NoneKept(s[1..], keep);
    }
  }

  lemma {:induction false} AllKept<T(!new)>(s: seq<T>, keep: T -> bool)
    requires forall x :: x in s ==> keep(x)
    ensures Filter(s, keep) == s
  {
    if s != [] {
      AllKept(s[1..], keep);
    }
  }

  /** What is stored: the new scope and locations always; the new severity and CVSS unless no
      row has any score; the new EPSS as the anchor when it is reported or there was none. */
  lemma StoredIs(o: State, n: State, threshold: real)
    ensures var t := Diff(o, n, threshold).0;
      && t.version == n.version && t.scope == n.scope && t.locations == n.locations
      && (if o.version != STATE_VERSION then t.scores == n.scores && Diff(o, n, threshold).1 == []
          else if n.scores.severity.None? && n.scores.cvss.None? && n.scores.epssAnchor.None? then t.scores == o.scores
          else
            && t.scores.severity == n.scores.severity && t.scores.cvss == n.scores.cvss
            && t.scores.epssAnchor ==
               if ScoresMoved(o.scores, n.scores, threshold) then
                 if n.locations == [] then o.scores.epssAnchor else n.scores.epssAnchor
               else if o.scores.epssAnchor.None? then n.scores.epssAnchor
               else o.scores.epssAnchor)
  {
    ChangedIffMoved(o.scores, n.scores, threshold);
  }

  // ----- the location events -----

  ghost predicate Covers(scope: Scope, p: Pair) {
    scope == Wildcard || (scope.Listed? && p in scope.pairs)
  }

  ghost predicate GainedImage(o: State, n: State, p: Pair) {
    exists l :: LastAt(n.locations, p, l)
      && if HasPair(o.locations, p) then exists m, x :: LastAt(o.locations, p, m) && x in l.images && x !in m.images
         else Covers(o.scope, p)
  }

  ghost predicate GainedFix(o: State, n: State, p: Pair) {
    exists l, m, x :: LastAt(n.locations, p, l) && LastAt(o.locations, p, m) && x in l.fixable && x !in m.fixable
  }

  ghost predicate Lost(o: State, n: State, p: Pair) {
    HasPair(o.locations, p) && !HasPair(n.locations, p) && Covers(n.scope, p)
  }

  predicate HasPair(locations: seq<Location>, p: Pair) {
    exists l :: l in locations && l.pair == p
  }

  /** The last entry for the pair, as a dictionary keeps it. */
  ghost predicate LastAt(locations: seq<Location>, p: Pair, l: Location) {
    exists i :: IsLastAt(locations, p, l, i)
  }

  ghost predicate IsLastAt(locations: seq<Location>, p: Pair, l: Location, i: int) {
    && 0 <= i < |locations| && locations[i] == l && l.pair == p
    && forall j :: i < j < |locations| ==> locations[j].pair != p
  }

  lemma {:induction false} ByPairIsLast(locations: seq<Location>, p: Pair, l: Location)
    ensures p in ByPair(locations) <==> HasPair(locations, p)
    ensures LastAt(locations, p, l) <==> p in ByPair(locations) && ByPair(locations)[p] == l
  {
    if locations != [] {
      var n := |locations| - 1;
      ByPairIsLast(locations[..n], p, l);
      assert locations == locations[..n] + [locations[n]];
      LastAtLonger(locations[..n], locations[n], p, l);
    }
  }

  lemma LastAtLonger(before: seq<Location>, last: Location, p: Pair, l: Location)
    ensures LastAt(before + [last], p, l) <==> if last.pair == p then l == last else LastAt(before, p, l)
  {
    var longer, n := before + [last], |before|;
    assert longer[n] == last && forall j :: 0 <= j < n ==> longer[j] == before[j];
    if LastAt(longer, p, l) {
      var i :| IsLastAt(longer, p, l, i);
      if last.pair == p {
        assert i == n;
      } else {
        assert i < n && IsLastAt(before, p, l, i);
      }
    }
    if last.pair == p && l == last {
      assert IsLastAt(longer, p, l, n);
    }
    if last.pair != p && LastAt(before, p, l) {
      var i :| IsLastAt(before, p, l, i);
      assert IsLastAt(longer, p, l, i);
    }
  }

  lemma FoundAre(o: State, n: State, p: Pair)
    ensures p in NewImagePairs(o, n) <==> GainedImage(o, n, p)
    ensures p in NewFixPairs(o, n) <==> GainedFix(o, n, p)
    ensures p in GonePairs(o, n) <==> Lost(o, n, p)
  {
    var was, is_ := ByPair(o.locations), ByPair(n.locations);
    forall l ensures LastAt(n.locations, p, l) <==> p in is_ && is_[p] == l {
      ByPairIsLast(n.locations, p, l);
    }
    forall m ensures LastAt(o.locations, p, m) <==> p in was && was[p] == m {
      ByPairIsLast(o.locations, p, m);
    }
    ByPairIsLast(o.locations, p, Location(p, [], []));
    ByPairIsLast(n.locations, p, Location(p, [], []));
    if p in is_ {
      assert LastAt(n.locations, p, is_[p]);
    }
    if p in was {
      assert LastAt(o.locations, p, was[p]);
    }
  }

  /** Exactly the location events of a diff, each once iff some pair produced it, listing the
      pairs that did. */
  lemma LocationEventsAre(o: State, n: State, threshold: real, e: Event)
    requires o.version == STATE_VERSION
    ensures e.NewImages? ==> (e in Diff(o, n, threshold).1 <==>
      e.scope != [] && Sorted(e.scope, ByCluster) && Distinct(e.scope)
      && forall p :: p in e.scope <==> GainedImage(o, n, p))
    ensures e.FixAvailable? ==> (e in Diff(o, n, threshold).1 <==>
      e.scope != [] && Sorted(e.scope, ByCluster) && Distinct(e.scope)
      && forall p :: p in e.scope <==> GainedFix(o, n, p))
    ensures e.NoLongerAffected? ==> (e in Diff(o, n, threshold).1 <==>
      e.scope != [] && Sorted(e.scope, ByCluster) && Distinct(e.scope)
      && forall p :: p in e.scope <==> Lost(o, n, p))
  {
    forall p
      ensures p in NewImagePairs(o, n) <==> GainedImage(o, n, p)
      ensures p in NewFixPairs(o, n) <==> GainedFix(o, n, p)
      ensures p in GonePairs(o, n) <==> Lost(o, n, p)
    {
      FoundAre(o, n, p);
    }
    var pairs :=
      if e.NewImages? then NewImagePairs(o, n) else if e.FixAvailable? then NewFixPairs(o, n) else GonePairs(o, n);
    InDiff(o, n, threshold, e, pairs);
    ListsExactly(e.scope, pairs);
  }

  lemma InDiff(o: State, n: State, threshold: real, e: Event, pairs: set<Pair>)
    requires o.version == STATE_VERSION
    requires
      pairs ==
      if e.NewImages? then NewImagePairs(o, n) else if e.FixAvailable? then NewFixPairs(o, n) else GonePairs(o, n)
    ensures !e.ScoresChanged? ==>
              (e in Diff(o, n, threshold).1 <==> pairs != {} && e.scope == SortedOf(pairs, ByCluster))
  {
    assert Diff(o, n, threshold).1 == ScoreEvents(o, n, threshold) + LocationEvents(o, n);
  }

  lemma ListsExactly(l: seq<Pair>, pairs: set<Pair>)
    ensures pairs != {} && l == SortedOf(pairs, ByCluster) <==>
            l != [] && Sorted(l, ByCluster) && Distinct(l) && forall p :: p in l <==> p in pairs
  {
    PairOrders();
    SortedOfCanonical(pairs, ByCluster);
    var s := SortedOf(pairs, ByCluster);
    assert forall p :: p in s <==> p in Elems(s);
    if l != [] && Sorted(l, ByCluster) && Distinct(l) && forall p :: p in l <==> p in pairs {
      assert l[0] in pairs;
      assert Elems(l) == pairs;
      CanonicalUnique(l, s, pairs, ByCluster);
    }
    if pairs != {} && l == s {
      var p :| p in pairs;
      assert p in s;
    }
  }
}
