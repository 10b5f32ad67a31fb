/** Ordering of scanner fix versions (services/version_compare.py).

    PEP 440 parsing is a parameter: `pep` maps a string to its key, or to None when
    the string is not a PEP 440 version. Only the order of the keys matters, and any
    countable total order embeds in the reals, so keys are reals. */
module Versions {
  import opened Wrappers
  import opened Text
  import opened Ordering

  type Pep440 = string -> Option<real>

  // ----- rpmvercmp -----

  datatype Segment = Tilde | Alpha(text: string) | Num(value: nat)

  /** The longest prefix whose characters satisfy `p`. */
  function Run(s: string, p: char -> bool): (r: string)
    ensures r <= s && forall c :: c in r ==> p(c)
    ensures s != [] && p(s[0]) ==> r != []
  {
    if s != [] && p(s[0]) then [s[0]] + Run(s[1..], p) else []
  }

  /** Numeric runs, alphabetic runs and `~`, left to right; other characters separate. */
  function Segments(s: string): seq<Segment> {
    if s == [] then []
    else if IsDigit(s[0]) then
      var run := Run(s, IsDigit);
      [Num(ParseNat(run))] + Segments(s[|run|..])
    else if IsLetter(s[0]) then
      var run := Run(s, IsLetter);
      [Alpha(run)] + Segments(s[|run|..])
    else if s[0] == '~' then [Tilde] + Segments(s[1..])
    else Segments(s[1..])
  }

  /** A segment list continues forever with end-of-string slots. */
  datatype Slot = End | Seg(segment: Segment)

  function At(s: seq<Segment>, i: nat): Slot {
    if i < |s| then Seg(s[i]) else End
  }

  /** `~` < end of string < alphabetic < numeric */
  function Rank(x: Slot): nat {
    match x
    case Seg(Tilde) => 0
    case End => 1
    case Seg(Alpha(_)) => 2
    case Seg(Num(_)) => 3
  }

  predicate SlotLess(x: Slot, y: Slot) {
    if Rank(x) != Rank(y) then Rank(x) < Rank(y)
    else match (x, y)
      case (Seg(Alpha(s)), Seg(Alpha(t))) => s != t && StrLe(s, t)
      case (Seg(Num(m)), Seg(Num(n))) => m < n
      case _ => false
  }

  function Tail(s: seq<Segment>): seq<Segment> {
    if s == [] then [] else s[1..]
  }

  /** Lexicographic comparison of the padded segment lists. */
  function CompareSegments(a: seq<Segment>, b: seq<Segment>): int
    decreases |a| + |b|
  {
    if a == [] && b == [] then 0
    else if SlotLess(At(a, 0), At(b, 0)) then -1
    else if SlotLess(At(b, 0), At(a, 0)) then 1
    else CompareSegments(Tail(a), Tail(b))
  }

  /** The comparison is decided at the first slot in which the lists differ. */
  lemma {:induction false} FirstDifferenceDecides(a: seq<Segment>, b: seq<Segment>, k: nat)
    requires forall i: nat :: i < k ==> At(a, i) == At(b, i)
    requires At(a, k) != At(b, k)
    ensures CompareSegments(a, b) == if SlotLess(At(a, k), At(b, k)) then -1 else 1
    decreases k
  {
    SlotTrichotomy(At(a, k), At(b, k));
    if k > 0 {
      assert At(a, 0) == At(b, 0);
      SlotTrichotomy(At(a, 0), At(b, 0));
      forall i: nat | i < k - 1 ensures At(Tail(a), i) == At(Tail(b), i) {
        assert At(a, i + 1) == At(b, i + 1);
      }
      FirstDifferenceDecides(Tail(a), Tail(b), k - 1);
    }
  }

  lemma SlotTrichotomy(x: Slot, y: Slot)
    ensures !(SlotLess(x, y) && SlotLess(y, x))
    ensures SlotLess(x, y) || SlotLess(y, x) || x == y
  {
    StrLeOrder();
  }

  lemma SlotLessTransitive(x: Slot, y: Slot, z: Slot)
    requires SlotLess(x, y) && SlotLess(y, z)
    ensures SlotLess(x, z)
  {
    StrLeOrder();
  }

  /** Antisymmetric up to sign, and zero exactly on equal segment lists. */
  lemma {:induction false} CompareSegmentsSign(a: seq<Segment>, b: seq<Segment>)
    ensures CompareSegments(b, a) == -CompareSegments(a, b)
    ensures CompareSegments(a, b) in {-1, 0, 1}
    ensures CompareSegments(a, b) == 0 <==> a == b
    decreases |a| + |b|
  {
    if a != [] || b != [] {
      SlotTrichotomy(At(a, 0), At(b, 0));
      if At(a, 0) == At(b, 0) {
        CompareSegmentsSign(Tail(a), Tail(b));
        assert a == [a[0]] + Tail(a) && b == [b[0]] + Tail(b);
      }
    }
  }

  lemma {:induction false} CompareSegmentsTransitive(a: seq<Segment>, b: seq<Segment>, c: seq<Segment>)
    requires CompareSegments(a, b) <= 0 && CompareSegments(b, c) <= 0
    ensures CompareSegments(a, c) <= 0
    ensures CompareSegments(a, c) == 0 ==> CompareSegments(a, b) == 0 && CompareSegments(b, c) == 0
    decreases |a| + |b| + |c|
  {
    if a != [] || b != [] || c != [] {
      SlotTrichotomy(At(a, 0), At(b, 0));
      SlotTrichotomy(At(b, 0), At(c, 0));
      SlotTrichotomy(At(a, 0), At(c, 0));
      if SlotLess(At(a, 0), At(b, 0)) && SlotLess(At(b, 0), At(c, 0)) {
        SlotLessTransitive(At(a, 0), At(b, 0), At(c, 0));
      } else if At(a, 0) == At(b, 0) && At(b, 0) == At(c, 0) {
        CompareSegmentsTransitive(Tail(a), Tail(b), Tail(c));
      }
    }
  }

  /** `_rpmvercmp`: the segment loop, with its early returns and the tail rule. */
  method RpmVerCmp(a: string, b: string) returns (r: int)
    ensures r == CompareSegments(Segments(a), Segments(b))
  {
    StrLeOrder();
    var segA, segB := Segments(a), Segments(b);
    var i := 0;
    while i < |segA| && i < |segB|
      invariant 0 <= i <= |segA| && i <= |segB|
      invariant CompareSegments(segA, segB) == CompareSegments(segA[i..], segB[i..])
    {
      var x, y := segA[i], segB[i];
      assert At(segA[i..], 0) == Seg(x) && At(segB[i..], 0) == Seg(y);
      if x.Tilde? || y.Tilde? {
        if x != y {
          return if x.Tilde? then -1 else 1;
        }
      } else if x.Num? && y.Num? {
        if x.value != y.value {
          return if x.value < y.value then -1 else 1;
        }
      } else if x.Num? != y.Num? {
        return if x.Num? then 1 else -1;
      } else if x.text != y.text {
        return if StrLe(x.text, y.text) then -1 else 1;
      }
      assert segA[i..][1..] == segA[i + 1..] && segB[i..][1..] == segB[i + 1..];
      i := i + 1;
    }
    assert segA[i..] == [] || segB[i..] == [];
    if |segA| == |segB| {
      return 0;
    }
    var longer, sign := if |segA| > |segB| then segA else segB, if |segA| > |segB| then 1 else -1;
    var extra := longer[i];
    return if extra.Tilde? then -sign else sign;
  }

  // ----- compare_versions -----

  /** `_split_epoch` */
  function SplitEpoch(v: string): (nat, string) {
    var colon := Find(v, ':');
    var (epoch, rest) :=
      if 0 < colon < |v| && AllDigits(v[..colon]) then (ParseNat(v[..colon]), v[colon + 1..]) else (0, v);
    (epoch, if |rest| >= 2 && rest[0] in {'v', 'V'} && IsDigit(rest[1]) then rest[1..] else rest)
  }

  /** The RPM-style comparison of two stripped strings: epoch first, then segments. */
  function RpmCompare(a: string, b: string): int {
    var (epochA, restA) := SplitEpoch(a);
    var (epochB, restB) := SplitEpoch(b);
    if epochA != epochB then (if epochA < epochB then -1 else 1)
    else CompareSegments(Segments(restA), Segments(restB))
  }

  function PepCompare(x: real, y: real): int {
    (if x > y then 1 else 0) - (if x < y then 1 else 0)
  }

  /** `compare_versions` */
  function CompareVersions(pep: Pep440, a: string, b: string): int {
    match (pep(Strip(a)), pep(Strip(b)))
    case (Some(x), Some(y)) => PepCompare(x, y)
    case _ => RpmCompare(Strip(a), Strip(b))
  }

  lemma RpmCompareSign(a: string, b: string)
    ensures RpmCompare(b, a) == -RpmCompare(a, b)
    ensures RpmCompare(a, b) in {-1, 0, 1}
  {
    CompareSegmentsSign(Segments(SplitEpoch(a).1), Segments(SplitEpoch(b).1));
  }

  lemma RpmCompareTransitive(a: string, b: string, c: string)
    requires RpmCompare(a, b) <= 0 && RpmCompare(b, c) <= 0
    ensures RpmCompare(a, c) <= 0
    ensures RpmCompare(a, c) == 0 ==> RpmCompare(a, b) == 0 && RpmCompare(b, c) == 0
  {
    var x, y, z := SplitEpoch(a), SplitEpoch(b), SplitEpoch(c);
    if x.0 == y.0 == z.0 {
      CompareSegmentsTransitive(Segments(x.1), Segments(y.1), Segments(z.1));
    }
  }

  /** Swapping the arguments flips the sign, so the comparison is total. */
  lemma CompareVersionsSign(pep: Pep440, a: string, b: string)
    ensures CompareVersions(pep, b, a) == -CompareVersions(pep, a, b)
    ensures CompareVersions(pep, a, b) in {-1, 0, 1}
  {
    RpmCompareSign(Strip(a), Strip(b));
  }

  predicate IsPep(pep: Pep440, v: string) {
    pep(Strip(v)).Some?
  }

  predicate Leq(pep: Pep440, a: string, b: string) {
    CompareVersions(pep, a, b) <= 0
  }

  ghost predicate TransitiveOn(pep: Pep440, s: set<string>) {
    forall a, b, c :: a in s && b in s && c in s && Leq(pep, a, b) && Leq(pep, b, c) ==> Leq(pep, a, c)
  }

  predicate Between(pep: Pep440, q: string, n: string, p: string) {
    Leq(pep, q, n) && Leq(pep, n, p)
  }

  /** Wherever a non-PEP 440 string lies between two PEP 440 strings, the PEP 440
      order and the RPM-style order of the two agree. */
  ghost predicate OrdersAgree(pep: Pep440, s: set<string>) {
    forall p, q, n ::
      p in s && q in s && n in s && IsPep(pep, p) && IsPep(pep, q) && !IsPep(pep, n) && Between(pep, q, n, p) ==>
        CompareVersions(pep, q, p) == RpmCompare(Strip(q), Strip(p))
  }

  /** Exactly when the layered comparison orders a set of candidates. */
  lemma TransitiveIff(pep: Pep440, s: set<string>)
    ensures TransitiveOn(pep, s) <==> OrdersAgree(pep, s)
  {
    if TransitiveOn(pep, s) {
      forall p, q, n | p in s && q in s && n in s && IsPep(pep, p) && IsPep(pep, q) && !IsPep(pep, n)
                       && Between(pep, q, n, p)
        ensures CompareVersions(pep, q, p) == RpmCompare(Strip(q), Strip(p))
      {
        AgreementIsNecessary(pep, s, p, q, n);
      }
    }
    if OrdersAgree(pep, s) {
      forall a, b, c | a in s && b in s && c in s && Leq(pep, a, b) && Leq(pep, b, c) ensures Leq(pep, a, c) {
        AgreementSuffices(pep, s, a, b, c);
      }
    }
  }

  lemma AgreementIsNecessary(pep: Pep440, s: set<string>, p: string, q: string, n: string)
    requires TransitiveOn(pep, s) && p in s && q in s && n in s
    requires IsPep(pep, p) && IsPep(pep, q) && !IsPep(pep, n) && Between(pep, q, n, p)
    ensures CompareVersions(pep, q, p) == RpmCompare(Strip(q), Strip(p))
  {
    assert RpmCompare(Strip(q), Strip(p)) <= 0 by {
      RpmCompareTransitive(Strip(q), Strip(n), Strip(p));
    }
    RpmCompareSign(Strip(q), Strip(p));
    CompareVersionsSign(pep, q, p);
    assert Leq(pep, q, p);
    if RpmCompare(Strip(q), Strip(p)) == 0 {
      EqualByRpm(pep, s, p, q, n);
    } else if CompareVersions(pep, q, p) == 0 {
      EqualByPep(pep, s, p, q, n);
    }
  }

  lemma EqualByRpm(pep: Pep440, s: set<string>, p: string, q: string, n: string)
    requires TransitiveOn(pep, s) && p in s && q in s && n in s && !IsPep(pep, n) && Between(pep, q, n, p)
    requires RpmCompare(Strip(q), Strip(p)) == 0
    ensures Leq(pep, p, q)
  {
    RpmCompareTransitive(Strip(q), Strip(n), Strip(p));
    RpmCompareSign(Strip(q), Strip(n));
    RpmCompareSign(Strip(n), Strip(p));
    assert Leq(pep, p, n) && Leq(pep, n, q);
  }

  lemma EqualByPep(pep: Pep440, s: set<string>, p: string, q: string, n: string)
    requires TransitiveOn(pep, s) && p in s && q in s && n in s && !IsPep(pep, n) && Between(pep, q, n, p)
    requires Leq(pep, p, q)
    ensures RpmCompare(Strip(p), Strip(q)) <= 0
  {
    assert Leq(pep, p, n) && Leq(pep, n, q);
    RpmCompareTransitive(Strip(p), Strip(n), Strip(q));
  }

  lemma AgreementSuffices(pep: Pep440, s: set<string>, a: string, b: string, c: string)
    requires OrdersAgree(pep, s) && a in s && b in s && c in s
    requires Leq(pep, a, b) && Leq(pep, b, c)
    ensures Leq(pep, a, c)
  {
    if !IsPep(pep, a) && IsPep(pep, b) && IsPep(pep, c) {
      PepLast(pep, s, a, b, c);
    } else if IsPep(pep, a) && IsPep(pep, b) && !IsPep(pep, c) {
      PepFirst(pep, s, a, b, c);
    } else if IsPep(pep, a) && !IsPep(pep, b) && IsPep(pep, c) {
      CompareVersionsSign(pep, a, c);
      RpmCompareTransitive(Strip(a), Strip(b), Strip(c));
      assert Between(pep, a, b, c);
    } else if !(IsPep(pep, a) && IsPep(pep, b)) {
      RpmCompareTransitive(Strip(a), Strip(b), Strip(c));
    }
  }

  /** c < a <= b by RPM would put a between c and b, which PEP 440 orders b <= c. */
  lemma PepLast(pep: Pep440, s: set<string>, a: string, b: string, c: string)
    requires OrdersAgree(pep, s) && a in s && b in s && c in s
    requires !IsPep(pep, a) && IsPep(pep, b) && IsPep(pep, c) && Leq(pep, a, b) && Leq(pep, b, c)
    ensures Leq(pep, a, c)
  {
    RpmCompareSign(Strip(a), Strip(c));
    if !Leq(pep, a, c) {
      CompareVersionsSign(pep, b, c);
      assert Between(pep, c, a, b);
      RpmCompareTransitive(Strip(c), Strip(a), Strip(b));
    }
  }

  /** b <= c < a by RPM would put c between b and a, which PEP 440 orders a <= b. */
  lemma PepFirst(pep: Pep440, s: set<string>, a: string, b: string, c: string)
    requires OrdersAgree(pep, s) && a in s && b in s && c in s
    requires IsPep(pep, a) && IsPep(pep, b) && !IsPep(pep, c) && Leq(pep, a, b) && Leq(pep, b, c)
    ensures Leq(pep, a, c)
  {
    RpmCompareSign(Strip(a), Strip(c));
    if !Leq(pep, a, c) {
      CompareVersionsSign(pep, a, b);
      assert Between(pep, b, c, a);
      RpmCompareTransitive(Strip(b), Strip(c), Strip(a));
    }
  }

  /** All PEP 440 or all not. */
  ghost predicate OneClass(pep: Pep440, s: set<string>) {
    forall v, w :: v in s && w in s ==> IsPep(pep, v) == IsPep(pep, w)
  }

  lemma OneClassAgrees(pep: Pep440, s: set<string>)
    requires OneClass(pep, s)
    ensures OrdersAgree(pep, s)
  {
  }

  /** Within one class the comparison is a total preorder. */
  lemma OneClassIsOrdered(pep: Pep440, s: set<string>)
    requires OneClass(pep, s)
    ensures TransitiveOn(pep, s)
    ensures forall a, b :: a in s && b in s ==> Leq(pep, a, b) || Leq(pep, b, a)
  {
    OneClassAgrees(pep, s);
    TransitiveIff(pep, s);
    forall a, b | a in s && b in s ensures Leq(pep, a, b) || Leq(pep, b, a) {
      CompareVersionsSign(pep, a, b);
    }
  }

  // ----- is_comparable, rank_versions, pick_fixed_by -----

  predicate PackageTailChar(c: char) {
    IsLetter(c) || IsDigit(c) || c in {'.', '+', '~', '_', ':', '-'}
  }

  /** `[vV]?\d[A-Za-z0-9.+~_:-]*` */
  predicate PackageCore(s: string) {
    var rest := if s != [] && s[0] in {'v', 'V'} then s[1..] else s;
    rest != [] && IsDigit(rest[0]) && forall c :: c in rest ==> PackageTailChar(c)
  }

  /** `_PACKAGE_VERSION_RE`: an optional numeric epoch before the core. */
  predicate LooksLikePackage(s: string) {
    var colon := Find(s, ':');
    PackageCore(s) || (0 < colon < |s| && AllDigits(s[..colon]) && PackageCore(s[colon + 1..]))
  }

  predicate IsComparable(pep: Pep440, v: string) {
    Strip(v) != [] && (IsPep(pep, v) || LooksLikePackage(Strip(v)))
  }

  predicate IsCandidate(c: Option<string>, v: string) {
    c.Some? && v == Strip(c.value) && v != []
  }

  predicate HasCandidate(candidates: seq<Option<string>>, v: string) {
    exists c :: c in candidates && IsCandidate(c, v)
  }

  lemma HasCandidateFirst(candidates: seq<Option<string>>, v: string)
    requires candidates != []
    ensures HasCandidate(candidates, v) <==> IsCandidate(candidates[0], v) || HasCandidate(candidates[1..], v)
  {
    assert candidates == [candidates[0]] + candidates[1..];
  }

  /** `{c.strip() for c in candidates if c and c.strip()}`, as a list */
  function Stripped(candidates: seq<Option<string>>): (r: seq<string>)
    ensures forall v :: v in r <==> HasCandidate(candidates, v)
  {
    if candidates == [] then []
    else
      assert forall v {:trigger HasCandidate(candidates, v)} ::
          HasCandidate(candidates, v) <==> IsCandidate(candidates[0], v) || HasCandidate(candidates[1..], v) by {
        forall v { HasCandidateFirst(candidates, v); }
      }
      match candidates[0]
      case Some(c) => if Strip(c) != [] then [Strip(c)] + Stripped(candidates[1..]) else Stripped(candidates[1..])
      case None => Stripped(candidates[1..])
  }

  datatype Ranking = Ranking(best: Option<string>, ordered: seq<string>, uncertain: bool)

  function Comparables(pep: Pep440, candidates: seq<Option<string>>): seq<string> {
    Filter(SortedDistinct(Stripped(candidates), StrLe), v => IsComparable(pep, v))
  }

  function Others(pep: Pep440, candidates: seq<Option<string>>): seq<string> {
    Filter(SortedDistinct(Stripped(candidates), StrLe), v => !IsComparable(pep, v))
  }

  /** `x` may stand before `y` in descending order; the reversed sort keeps ties in place. */
  predicate Descending(pep: Pep440, x: string, y: string) {
    CompareVersions(pep, x, y) >= 0
  }

  function DescendingOrder(pep: Pep440): (string, string) -> bool {
    (x, y) => Descending(pep, x, y)
  }

  /** `rank_versions` */
  function RankVersions(pep: Pep440, candidates: seq<Option<string>>): Ranking {
    var comparable := SortedComparables(pep, candidates);
    var other := Others(pep, candidates);
    Ranking(if comparable == [] then None else Some(comparable[0]), comparable + other, other != [])
  }

  /** The sorted listing of the distinct stripped candidates. */
  lemma ListingMembers(candidates: seq<Option<string>>)
    ensures var listing := SortedDistinct(Stripped(candidates), StrLe);
      Distinct(listing) && forall v :: v in listing <==> v in Stripped(candidates)
  {
    StrLeOrder();
    var s := Stripped(candidates);
    SortedDistinctCanonical(s, StrLe);
    forall v ensures v in SortedDistinct(s, StrLe) <==> v in s {
      assert v in SortedDistinct(s, StrLe) <==> v in Elems(SortedDistinct(s, StrLe));
      assert v in s <==> v in Elems(s);
    }
  }

  function SortedComparables(pep: Pep440, candidates: seq<Option<string>>): seq<string> {
    Sort(Comparables(pep, candidates), DescendingOrder(pep))
  }

  /** The two parts of the ranking: the comparable candidates and the others, each once. */
  lemma RankParts(pep: Pep440, candidates: seq<Option<string>>)
    ensures Distinct(SortedComparables(pep, candidates)) && Distinct(Others(pep, candidates))
    ensures forall v :: v in SortedComparables(pep, candidates) <==> v in Stripped(candidates) && IsComparable(pep, v)
    ensures forall v :: v in Others(pep, candidates) <==> v in Stripped(candidates) && !IsComparable(pep, v)
  {
    ListingMembers(candidates);
    var listing := SortedDistinct(Stripped(candidates), StrLe);
    var comparable := Comparables(pep, candidates);
    FilterMembers(listing, v => IsComparable(pep, v));
    FilterMembers(listing, v => !IsComparable(pep, v));
    SortPermutes(comparable, DescendingOrder(pep));
    PermutationDistinct(comparable, SortedComparables(pep, candidates));
  }

  /** Ranking is a permutation of the distinct candidates, comparable ones first, and is
      uncertain exactly when some candidate is not comparable. */
  lemma RankPermutes(pep: Pep440, candidates: seq<Option<string>>)
    ensures var r := RankVersions(pep, candidates);
      && Distinct(r.ordered)
      && (forall v :: v in r.ordered <==> v in Stripped(candidates))
      && (forall i, j :: 0 <= i < j < |r.ordered| && IsComparable(pep, r.ordered[j]) ==>
            IsComparable(pep, r.ordered[i]))
      && (r.uncertain <==> exists v :: v in Stripped(candidates) && !IsComparable(pep, v))
      && (r.best.None? <==> forall v :: v in Stripped(candidates) ==> !IsComparable(pep, v))
      && (r.best.Some? ==> r.ordered != [] && r.best.value == r.ordered[0] && IsComparable(pep, r.best.value))
  {
    RankParts(pep, candidates);
    var first, other := SortedComparables(pep, candidates), Others(pep, candidates);
    var r := RankVersions(pep, candidates);
    assert r == Ranking(if first == [] then None else Some(first[0]), first + other, other != []);
    PartsAreRanked(pep, r, first, other, Stripped(candidates));
  }

  lemma PartsAreRanked(pep: Pep440, r: Ranking, first: seq<string>, other: seq<string>, all: seq<string>)
    requires r == Ranking(if first == [] then None else Some(first[0]), first + other, other != [])
    requires Distinct(first) && Distinct(other)
    requires forall v :: v in first <==> v in all && IsComparable(pep, v)
    requires forall v :: v in other <==> v in all && !IsComparable(pep, v)
    ensures Distinct(r.ordered) && forall v :: v in r.ordered <==> v in all
    ensures forall i, j :: 0 <= i < j < |r.ordered| && IsComparable(pep, r.ordered[j]) ==>
            IsComparable(pep, r.ordered[i])
    ensures r.uncertain <==> exists v :: v in all && !IsComparable(pep, v)
    ensures r.best.None? <==> forall v :: v in all ==> !IsComparable(pep, v)
    ensures r.best.Some? ==> r.ordered != [] && r.best.value == r.ordered[0] && IsComparable(pep, r.best.value)
  {
    TwoParts(first, other, all, v => IsComparable(pep, v));
  }

  lemma TwoParts<T(!new)>(first: seq<T>, other: seq<T>, all: seq<T>, p: T -> bool)
    requires Distinct(first) && Distinct(other)
    requires forall v :: v in first <==> v in all && p(v)
    requires forall v :: v in other <==> v in all && !p(v)
    ensures var r := first + other;
      && Distinct(r)
      && (forall v :: v in r <==> v in all)
      && (forall i, j :: 0 <= i < j < |r| && p(r[j]) ==> p(r[i]))
    ensures other != [] <==> exists v :: v in all && !p(v)
    ensures first == [] <==> forall v :: v in all ==> !p(v)
    ensures first != [] ==> p(first[0])
  {
    assert first != [] ==> first[0] in first;
    assert other != [] ==> other[0] in other;
    forall i | 0 <= i < |first + other| ensures i < |first| <==> p((first + other)[i]) {
      assert (first + other)[i] in if i < |first| then first else other;
    }
  }

  /** The ranking depends only on the set of stripped candidates. */
  lemma RankDependsOnSet(pep: Pep440, a: seq<Option<string>>, b: seq<Option<string>>)
    requires Elems(Stripped(a)) == Elems(Stripped(b))
    ensures RankVersions(pep, a) == RankVersions(pep, b)
  {
    StrLeOrder();
    SortedDistinctCanonical(Stripped(a), StrLe);
    SortedDistinctCanonical(Stripped(b), StrLe);
    CanonicalUnique(SortedDistinct(Stripped(a), StrLe), SortedDistinct(Stripped(b), StrLe), Elems(Stripped(a)), StrLe);
  }

  /** `pick_fixed_by`: the display field is empty only when every candidate is blank. */
  function PickFixedBy(pep: Pep440, candidates: seq<Option<string>>): (r: Option<string>)
    ensures r.None? <==> Stripped(candidates) == []
    ensures r.Some? ==> r.value in Stripped(candidates)
    ensures RankVersions(pep, candidates).best.Some? ==> r == RankVersions(pep, candidates).best
    ensures r.Some? && !IsComparable(pep, r.value) ==>
              forall v :: v in Stripped(candidates) ==> !IsComparable(pep, v) && StrLe(v, r.value)
  {
    RankPermutes(pep, candidates);
    var ranking := RankVersions(pep, candidates);
    assert Stripped(candidates) != [] ==> Stripped(candidates)[0] in ranking.ordered;
    assert ranking.ordered != [] ==> ranking.ordered[0] in Stripped(candidates);
    if ranking.best.Some? then ranking.best
    else if ranking.ordered == [] then None
    else Some(LexicalMax(ranking.ordered))
  }

  function LexicalMax(s: seq<string>): (m: string)
    requires s != []
    ensures m in s && forall v :: v in s ==> StrLe(v, m)
  {
    StrLeOrder();
    if |s| == 1 then s[0]
    else
      var m := LexicalMax(s[1..]);
      assert s == [s[0]] + s[1..];
      if StrLe(s[0], m) then m else s[0]
  }

  // ----- mixed candidates -----

  /** A final release such as 1.0, a pre-release of it such as 1.0rc1, and a build of it
      that PEP 440 rejects such as 1.0-foo. */
  function Final(major: char, minor: char): string {
    [major] + (['.'] + ([minor] + []))
  }

  function Prerelease(major: char, minor: char, phase: string, number: char): string {
    [major] + (['.'] + ([minor] + (phase + ([number] + []))))
  }

  function CustomBuild(major: char, minor: char, word: string): string {
    [major] + (['.'] + ([minor] + (['-'] + (word + []))))
  }

  predicate IsWord(s: string) {
    s != [] && forall c :: c in s ==> IsLetter(c)
  }

  /** When the build word sorts before the pre-release phase (foo < rc), the three form a
      cycle: each is below the next. */
  lemma MixedCycle(pep: Pep440, major: char, minor: char, phase: string, number: char, word: string)
    requires IsDigit(major) && IsDigit(minor) && IsDigit(number) && IsWord(phase) && IsWord(word)
    requires StrLe(word, phase) && word != phase
    requires var (rc, final, custom) :=
        (Prerelease(major, minor, phase, number), Final(major, minor), CustomBuild(major, minor, word));
      pep(rc).Some? && pep(final).Some? && pep(rc).value < pep(final).value && pep(custom).None?
    ensures var (rc, final, custom) :=
        (Prerelease(major, minor, phase, number), Final(major, minor), CustomBuild(major, minor, word));
      && IsComparable(pep, rc) && IsComparable(pep, final) && IsComparable(pep, custom)
      && CompareVersions(pep, rc, final) == -1
      && CompareVersions(pep, final, custom) == -1
      && CompareVersions(pep, custom, rc) == -1
      && !TransitiveOn(pep, {rc, final, custom})
  {
    PlainVersion(Prerelease(major, minor, phase, number));
    PlainVersion(Final(major, minor));
    PlainVersion(CustomBuild(major, minor, word));
    SegmentsCycle(major, minor, phase, number, word);
    CycleOf(pep, Prerelease(major, minor, phase, number), Final(major, minor), CustomBuild(major, minor, word));
  }

  /** The cycle with the versions of one release. */
  lemma ReleaseCycle(pep: Pep440)
    requires pep("1.0rc1").Some? && pep("1.0").Some? && pep("1.0-foo").None?
    requires pep("1.0rc1").value < pep("1.0").value
    ensures IsComparable(pep, "1.0rc1") && IsComparable(pep, "1.0") && IsComparable(pep, "1.0-foo")
    ensures CompareVersions(pep, "1.0rc1", "1.0") == -1
    ensures CompareVersions(pep, "1.0", "1.0-foo") == -1
    ensures CompareVersions(pep, "1.0-foo", "1.0rc1") == -1
  {
    assert Prerelease('1', '0', "rc", '1') == "1.0rc1";
    assert Final('1', '0') == "1.0" && CustomBuild('1', '0', "foo") == "1.0-foo";
    MixedCycle(pep, '1', '0', "rc", '1', "foo");
  }

  lemma CycleOf(pep: Pep440, rc: string, final: string, custom: string)
    requires Plain(rc) && Plain(final) && Plain(custom) && rc != [] && final != [] && custom != []
    requires pep(rc).Some? && pep(final).Some? && pep(rc).value < pep(final).value && pep(custom).None?
    requires CompareSegments(Segments(final), Segments(custom)) == -1
    requires CompareSegments(Segments(custom), Segments(rc)) == -1
    ensures IsComparable(pep, rc) && IsComparable(pep, final) && IsComparable(pep, custom)
    ensures CompareVersions(pep, rc, final) == -1
    ensures CompareVersions(pep, final, custom) == -1
    ensures CompareVersions(pep, custom, rc) == -1
    ensures !TransitiveOn(pep, {rc, final, custom})
  {
    PlainComparable(pep, rc);
    PlainComparable(pep, final);
    PlainComparable(pep, custom);
    assert CompareVersions(pep, rc, final) == -1;
    BySegments(pep, final, custom);
    BySegments(pep, custom, rc);
    CycleIsIntransitive(pep, rc, final, custom);
  }

  lemma PlainComparable(pep: Pep440, v: string)
    requires Plain(v) && v != []
    ensures IsComparable(pep, v)
  {
  }

  lemma CycleIsIntransitive(pep: Pep440, a: string, b: string, c: string)
    requires CompareVersions(pep, a, b) == -1 && CompareVersions(pep, b, c) == -1 && CompareVersions(pep, c, a) == -1
    ensures !TransitiveOn(pep, {a, b, c})
  {
    CompareVersionsSign(pep, c, a);
    assert Leq(pep, a, b) && Leq(pep, b, c) && !Leq(pep, a, c);
  }

  lemma BySegments(pep: Pep440, a: string, b: string)
    requires Plain(a) && Plain(b) && (pep(a).None? || pep(b).None?)
    ensures CompareVersions(pep, a, b) == CompareSegments(Segments(a), Segments(b))
  {
  }

  lemma SegmentsCycle(major: char, minor: char, phase: string, number: char, word: string)
    requires IsDigit(major) && IsDigit(minor) && IsDigit(number) && IsWord(phase) && IsWord(word)
    requires StrLe(word, phase) && word != phase
    ensures CompareSegments(Segments(Final(major, minor)), Segments(CustomBuild(major, minor, word))) == -1
    ensures CompareSegments(Segments(CustomBuild(major, minor, word)),
                            Segments(Prerelease(major, minor, phase, number))) == -1
  {
    PrereleaseSegments(major, minor, phase, number);
    MajorMinor(major, minor, []);
    CustomSegments(major, minor, word);
    CycleOfSegments(DigitValue(major), DigitValue(minor), word, phase, DigitValue(number));
  }

  lemma CycleOfSegments(m: nat, n: nat, word: string, phase: string, k: nat)
    requires StrLe(word, phase) && word != phase
    ensures CompareSegments([Num(m), Num(n)], [Num(m), Num(n), Alpha(word)]) == -1
    ensures CompareSegments([Num(m), Num(n), Alpha(word)], [Num(m), Num(n), Alpha(phase), Num(k)]) == -1
  {
    FirstDifferenceDecides([Num(m), Num(n)], [Num(m), Num(n), Alpha(word)], 2);
    FirstDifferenceDecides([Num(m), Num(n), Alpha(word)], [Num(m), Num(n), Alpha(phase), Num(k)], 2);
  }

  /** ... so no choice of target is at least as high as every candidate. */
  lemma MixedHasNoHighest(pep: Pep440, rc: string, final: string, custom: string, target: string)
    returns (higher: string)
    requires CompareVersions(pep, rc, final) == -1
    requires CompareVersions(pep, final, custom) == -1
    requires CompareVersions(pep, custom, rc) == -1
    requires target in {rc, final, custom}
    ensures higher in {rc, final, custom} && CompareVersions(pep, higher, target) == 1
  {
    higher := if target == rc then final else if target == final then custom else rc;
    CompareVersionsSign(pep, target, higher);
  }

  /** Stripped, without an epoch, and shaped like a package version. */
  ghost predicate Plain(v: string) {
    Strip(v) == v && SplitEpoch(v) == (0, v) && LooksLikePackage(v)
  }

  lemma PlainVersion(v: string)
    requires v != [] && IsDigit(v[0]) && ':' !in v
    requires forall c :: c in v ==> PackageTailChar(c)
    ensures Plain(v)
  {
    assert v[|v| - 1] in v;
    assert Find(v, ':') == |v|;
    assert PackageCore(v);
  }

  lemma PrereleaseSegments(major: char, minor: char, phase: string, number: char)
    requires IsDigit(major) && IsDigit(minor) && IsDigit(number) && IsWord(phase)
    ensures Segments(Prerelease(major, minor, phase, number)) ==
            [Num(DigitValue(major)), Num(DigitValue(minor)), Alpha(phase), Num(DigitValue(number))]
  {
    assert phase[0] in phase;
    DigitThen(number, []);
    LettersThen(phase, [number] + []);
    MajorMinor(major, minor, phase + ([number] + []));
  }

  lemma CustomSegments(major: char, minor: char, word: string)
    requires IsDigit(major) && IsDigit(minor) && IsWord(word)
    ensures Segments(CustomBuild(major, minor, word)) ==
            [Num(DigitValue(major)), Num(DigitValue(minor)), Alpha(word)]
  {
    LettersThen(word, []);
    SeparatorThen('-', word + []);
    MajorMinor(major, minor, ['-'] + (word + []));
  }

  lemma MajorMinor(major: char, minor: char, rest: string)
    requires IsDigit(major) && IsDigit(minor) && (rest == [] || !IsDigit(rest[0]))
    ensures Segments([major] + (['.'] + ([minor] + rest))) ==
            [Num(DigitValue(major)), Num(DigitValue(minor))] + Segments(rest)
  {
    DigitThen(minor, rest);
    SeparatorThen('.', [minor] + rest);
    DigitThen(major, ['.'] + ([minor] + rest));
  }

  function DigitValue(c: char): nat
    requires IsDigit(c)
  {
    c as int - '0' as int
  }

  lemma DigitThen(d: char, rest: string)
    requires IsDigit(d) && (rest == [] || !IsDigit(rest[0]))
    ensures Segments([d] + rest) == [Num(DigitValue(d))] + Segments(rest)
  {
    var s := [d] + rest;
    assert s[1..] == rest;
    assert Run(rest, IsDigit) == [];
    assert Run(s, IsDigit) == [d];
    assert [d][..0] == [];
    assert ParseNat([]) == 0;
    assert ParseNat([d]) == DigitValue(d);
  }

  lemma SeparatorThen(c: char, rest: string)
    requires c in {'.', '-'}
    ensures Segments([c] + rest) == Segments(rest)
  {
    assert ([c] + rest)[1..] == rest;
  }

  lemma LettersThen(word: string, rest: string)
    requires word != [] && (forall c :: c in word ==> IsLetter(c)) && (rest == [] || !IsLetter(rest[0]))
    ensures Segments(word + rest) == [Alpha(word)] + Segments(rest)
  {
    assert (word + rest)[0] == word[0] && word[0] in word;
    RunIs(word, rest);
    assert (word + rest)[|word|..] == rest;
  }

  lemma {:induction false} RunIs(word: string, rest: string)
    requires (forall c :: c in word ==> IsLetter(c)) && (rest == [] || !IsLetter(rest[0]))
    ensures Run(word + rest, IsLetter) == word
  {
    if word != [] {
      assert word[0] in word && (word + rest)[1..] == word[1..] + rest;
      RunIs(word[1..], rest);
      assert [word[0]] + word[1..] == word;
    } else {
      assert word + rest == rest;
    }
  }
}
