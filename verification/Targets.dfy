/** When the best version of a ranking is the highest (services/version_compare.py,
    `rank_versions`): always for comparisons that are transitive on the candidates, and
    otherwise exactly under the conditions below. */
module Targets {
  import opened Wrappers
  import opened Ordering
  import opened Versions
  import opened Highest

  ghost function ComparableSet(pep: Pep440, candidates: seq<Option<string>>): set<string> {
    Elems(Comparables(pep, candidates))
  }

  lemma ComparableSetMembers(pep: Pep440, candidates: seq<Option<string>>)
    ensures forall v :: v in ComparableSet(pep, candidates) <==> v in Stripped(candidates) && IsComparable(pep, v)
    ensures Distinct(Comparables(pep, candidates))
  {
    ListingMembers(candidates);
    FilterMembers(SortedDistinct(Stripped(candidates), StrLe), v => IsComparable(pep, v));
  }

  lemma OrderIsTotal(pep: Pep440)
    ensures Total(DescendingOrder(pep))
    ensures forall x, y :: DescendingOrder(pep)(x, y) <==> CompareVersions(pep, y, x) <= 0
  {
    forall x, y ensures DescendingOrder(pep)(x, y) || DescendingOrder(pep)(y, x)
      ensures DescendingOrder(pep)(x, y) <==> CompareVersions(pep, y, x) <= 0
    {
      CompareVersionsSign(pep, x, y);
    }
  }

  /** At least as high as every comparable candidate. */
  ghost predicate IsHighest(pep: Pep440, candidates: seq<Option<string>>, t: string) {
    forall v :: v in Stripped(candidates) && IsComparable(pep, v) ==> CompareVersions(pep, v, t) <= 0
  }

  lemma HighestIsTop(pep: Pep440, candidates: seq<Option<string>>, t: string)
    requires t in ComparableSet(pep, candidates)
    ensures IsHighest(pep, candidates, t) <==> Top(t, ComparableSet(pep, candidates), DescendingOrder(pep))
  {
    OrderIsTotal(pep);
    ComparableSetMembers(pep, candidates);
  }

  /** The best version is the first of the sorted comparable ones. */
  lemma BestIsFirst(pep: Pep440, candidates: seq<Option<string>>)
    ensures var best := RankVersions(pep, candidates).best;
      && (best.None? <==> ComparableSet(pep, candidates) == {})
      && (best.Some? ==> best.value in ComparableSet(pep, candidates))
      && (best.Some? ==> best.value == Sort(Comparables(pep, candidates), DescendingOrder(pep))[0])
    ensures MayReturn(SortedComparables(pep, candidates), ComparableSet(pep, candidates), DescendingOrder(pep))
  {
    OrderIsTotal(pep);
    ComparableSetMembers(pep, candidates);
    SortMayReturn(Comparables(pep, candidates), DescendingOrder(pep));
    var sorted := SortedComparables(pep, candidates);
    if sorted != [] {
      assert sorted[0] in Elems(sorted);
    }
  }

  // ----- the whole order -----

  lemma CandidatesInOrder(pep: Pep440, candidates: seq<Option<string>>)
    ensures Sorted(Comparables(pep, candidates), StrLe) && Sorted(Others(pep, candidates), StrLe)
  {
    StrLeOrder();
    var listing := SortedDistinct(Stripped(candidates), StrLe);
    SortedDistinctCanonical(Stripped(candidates), StrLe);
    FilterSorted(listing, v => IsComparable(pep, v), StrLe);
    FilterSorted(listing, v => !IsComparable(pep, v), StrLe);
  }

  predicate MayFollow(pep: Pep440, x: string, y: string) {
    && (IsComparable(pep, y) ==>
          CompareVersions(pep, x, y) > 0 || (CompareVersions(pep, x, y) == 0 && StrLe(x, y)))
    && (!IsComparable(pep, x) ==> StrLe(x, y))
  }

  /** Down the ranking a comparable version is never newer than the one above it, and later in
      lexical order where they tie; versions that are not comparable come in lexical order. */
  lemma RankedInTurn(pep: Pep440, candidates: seq<Option<string>>, ordered: seq<string>, i: nat)
    requires ordered == RankVersions(pep, candidates).ordered && i + 1 < |ordered|
    ensures MayFollow(pep, ordered[i], ordered[i + 1])
  {
    RankParts(pep, candidates);
    CandidatesInOrder(pep, candidates);
    ComparablesInTurn(pep, candidates);
    PartsInTurn(pep, SortedComparables(pep, candidates), Others(pep, candidates), ordered, i);
  }

  lemma ComparablesInTurn(pep: Pep440, candidates: seq<Option<string>>)
    ensures AllInTurn(SortedComparables(pep, candidates), DescendingOrder(pep), StrLe)
  {
    OrderIsTotal(pep);
    CandidatesInOrder(pep, candidates);
    SortInTurn(Comparables(pep, candidates), DescendingOrder(pep), StrLe);
  }

  lemma PartsInTurn(pep: Pep440, first: seq<string>, other: seq<string>, all: seq<string>, i: nat)
    requires AllInTurn(first, DescendingOrder(pep), StrLe) && Sorted(other, StrLe)
    requires (forall v :: v in first ==> IsComparable(pep, v)) && (forall v :: v in other ==> !IsComparable(pep, v))
    requires all == first + other && i + 1 < |all|
    ensures MayFollow(pep, all[i], all[i + 1])
  {
    if i + 1 < |first| {
      assert InTurn(first[i], first[i + 1], DescendingOrder(pep), StrLe);
      InTurnFollows(pep, first[i], first[i + 1]);
    } else {
      assert other[i + 1 - |first|] in other;
      if i < |first| {
        assert first[i] in first;
      }
    }
  }

  lemma InTurnFollows(pep: Pep440, x: string, y: string)
    requires InTurn(x, y, DescendingOrder(pep), StrLe) && IsComparable(pep, x)
    ensures MayFollow(pep, x, y)
  {
    CompareVersionsSign(pep, x, y);
  }

  // ----- whatever the sort -----

  lemma ListsNonEmpty<T>(l: seq<T>, s: set<T>)
    requires Lists(l, s) && s != {}
    ensures l != [] && l[0] in s
  {
    assert l == [] ==> Elems(l) == {};
    assert l != [] ==> l[0] in Elems(l);
  }

  /** However ties and cycles are resolved: every order that a comparison sort may leave
      begins with a highest candidate iff the candidates are settled. */
  lemma AnySortIsHighestIff(pep: Pep440, candidates: seq<Option<string>>)
    requires ComparableSet(pep, candidates) != {}
    ensures (forall l :: MayReturn(l, ComparableSet(pep, candidates), DescendingOrder(pep)) ==>
               l != [] && IsHighest(pep, candidates, l[0]))
            <==> Settled(ComparableSet(pep, candidates), DescendingOrder(pep))
  {
    var s, ge := ComparableSet(pep, candidates), DescendingOrder(pep);
    OrderIsTotal(pep);
    AnySortIffSettled(s, ge);
    forall l | MayReturn(l, s, ge) ensures l != [] && (IsHighest(pep, candidates, l[0]) <==> Top(l[0], s, ge)) {
      ListsNonEmpty(l, s);
      HighestIsTop(pep, candidates, l[0]);
    }
  }

  lemma DescendingIsGeq(pep: Pep440, x: string, y: string)
    ensures DescendingOrder(pep)(x, y) <==> Leq(pep, y, x)
  {
    CompareVersionsSign(pep, x, y);
  }

  lemma GeqTransitive(pep: Pep440, s: set<string>, a: string, b: string, c: string)
    requires TransitiveOn(pep, s) && a in s && b in s && c in s
    requires DescendingOrder(pep)(a, b) && DescendingOrder(pep)(b, c)
    ensures DescendingOrder(pep)(a, c)
  {
    DescendingIsGeq(pep, a, b);
    DescendingIsGeq(pep, b, c);
    DescendingIsGeq(pep, a, c);
  }

  lemma LeqTransitive(pep: Pep440, s: set<string>, a: string, b: string, c: string)
    requires TransitiveIn(s, DescendingOrder(pep)) && a in s && b in s && c in s
    requires Leq(pep, a, b) && Leq(pep, b, c)
    ensures Leq(pep, a, c)
  {
    DescendingIsGeq(pep, b, a);
    DescendingIsGeq(pep, c, b);
    DescendingIsGeq(pep, c, a);
  }

  lemma OrdersAgreeIffTransitive(pep: Pep440, s: set<string>)
    ensures OrdersAgree(pep, s) <==> TransitiveIn(s, DescendingOrder(pep))
  {
    TransitiveIff(pep, s);
    if TransitiveOn(pep, s) {
      forall a, b, c | a in s && b in s && c in s && DescendingOrder(pep)(a, b) && DescendingOrder(pep)(b, c)
        ensures DescendingOrder(pep)(a, c)
      {
        GeqTransitive(pep, s, a, b, c);
      }
    }
    if TransitiveIn(s, DescendingOrder(pep)) {
      forall a, b, c | a in s && b in s && c in s && Leq(pep, a, b) && Leq(pep, b, c) ensures Leq(pep, a, c) {
        LeqTransitive(pep, s, a, b, c);
      }
    }
  }

  /** Where the two orders agree, the candidates are settled. */
  lemma AgreementSettles(pep: Pep440, s: set<string>)
    requires OrdersAgree(pep, s) && s != {}
    ensures Settled(s, DescendingOrder(pep))
  {
    OrderIsTotal(pep);
    OrdersAgreeIffTransitive(pep, s);
    TransitiveIsSettled(s, DescendingOrder(pep));
  }

  /** The two orders agree on a set iff sorting puts a highest version first for every
      selection from it. */
  lemma AgreeIffAlwaysHighest(pep: Pep440, s: set<string>)
    ensures OrdersAgree(pep, s) <==>
            forall l :: l != [] && Distinct(l) && Elems(l) <= s ==>
              Top(Sort(l, DescendingOrder(pep))[0], Elems(l), DescendingOrder(pep))
  {
    OrderIsTotal(pep);
    OrdersAgreeIffTransitive(pep, s);
    AlwaysHighestIffTransitive(s, DescendingOrder(pep));
  }

  // ----- rank_versions -----

  /** A highest candidate that every lexically smaller candidate is strictly below. */
  ghost predicate LeadsTies(pep: Pep440, candidates: seq<Option<string>>, h: string) {
    && h in ComparableSet(pep, candidates) && IsHighest(pep, candidates, h)
    && forall x :: x in ComparableSet(pep, candidates) && StrLe(x, h) && x != h ==> CompareVersions(pep, x, h) < 0
  }

  lemma ComparablesAreSorted(pep: Pep440, candidates: seq<Option<string>>)
    ensures Sorted(Comparables(pep, candidates), StrLe) && Distinct(Comparables(pep, candidates))
  {
    StrLeOrder();
    var listing := SortedDistinct(Stripped(candidates), StrLe);
    SortedDistinctCanonical(Stripped(candidates), StrLe);
    FilterSorted(listing, v => IsComparable(pep, v), StrLe);
    ComparableSetMembers(pep, candidates);
  }

  lemma {:induction false} FilterSorted<T(!new)>(s: seq<T>, keep: T -> bool, le: (T, T) -> bool)
    requires Sorted(s, le)
    ensures Sorted(Filter(s, keep), le)
  {
    if s != [] {
      TailSorted(s, le);
      FilterSorted(s[1..], keep, le);
      FilterMembers(s[1..], keep);
      var rest := Filter(s[1..], keep);
      forall i | 0 <= i < |rest| ensures le(s[0], rest[i]) {
        assert rest[i] in s[1..];
      }
    }
  }

  /** In a sorted listing, what stands before position `k` is what is smaller. */
  lemma BeforeIsSmaller<T(!new)>(l: seq<T>, k: nat, j: nat, le: (T, T) -> bool)
    requires TotalOrder(le) && Sorted(l, le) && Distinct(l) && k < |l| && j < |l|
    ensures j < k <==> le(l[j], l[k]) && l[j] != l[k]
  {
  }

  lemma LeadsTiesIsFirstTop(pep: Pep440, candidates: seq<Option<string>>, k: nat)
    requires k < |Comparables(pep, candidates)|
    ensures LeadsTies(pep, candidates, Comparables(pep, candidates)[k]) <==>
            FirstTop(Comparables(pep, candidates), k, DescendingOrder(pep))
  {
    var l, h := Comparables(pep, candidates), Comparables(pep, candidates)[k];
    ComparablesAreSorted(pep, candidates);
    StrLeOrder();
    assert h in Elems(l);
    HighestIsTop(pep, candidates, h);
    NoTieBefore(pep, l, k);
  }

  lemma NoTieBefore(pep: Pep440, l: seq<string>, k: nat)
    requires Sorted(l, StrLe) && Distinct(l) && TotalOrder(StrLe) && k < |l|
    ensures (forall x :: x in Elems(l) && StrLe(x, l[k]) && x != l[k] ==> CompareVersions(pep, x, l[k]) < 0) <==>
            (forall j :: 0 <= j < k ==> !DescendingOrder(pep)(l[j], l[k]))
  {
    if forall x :: x in Elems(l) && StrLe(x, l[k]) && x != l[k] ==> CompareVersions(pep, x, l[k]) < 0 {
      forall j | 0 <= j < k ensures !DescendingOrder(pep)(l[j], l[k]) {
        BeforeIsSmaller(l, k, j, StrLe);
        assert l[j] in Elems(l);
      }
    }
    if forall j :: 0 <= j < k ==> !DescendingOrder(pep)(l[j], l[k]) {
      forall x | x in Elems(l) && StrLe(x, l[k]) && x != l[k] ensures CompareVersions(pep, x, l[k]) < 0 {
        var j :| 0 <= j < |l| && l[j] == x;
        BeforeIsSmaller(l, k, j, StrLe);
      }
    }
  }

  /** The best version is at least as high as every comparable candidate iff some highest
      candidate stands above all lexically smaller ones: ties are decided by the lexical
      order, and a tie with a version that is not itself highest is fatal. */
  lemma BestIsHighestIff(pep: Pep440, candidates: seq<Option<string>>)
    requires RankVersions(pep, candidates).best.Some?
    ensures IsHighest(pep, candidates, RankVersions(pep, candidates).best.value)
            <==> exists h :: LeadsTies(pep, candidates, h)
  {
    var l, ge, best := Comparables(pep, candidates), DescendingOrder(pep), RankVersions(pep, candidates).best.value;
    BestIsFirst(pep, candidates);
    OrderIsTotal(pep);
    HighestIsTop(pep, candidates, best);
    if IsHighest(pep, candidates, best) {
      var k := WinnerIsFirstTop(l, ge);
      LeadsTiesIsFirstTop(pep, candidates, k);
      assert LeadsTies(pep, candidates, l[k]);
    }
    if h :| LeadsTies(pep, candidates, h) {
      var k :| 0 <= k < |l| && l[k] == h;
      LeadsTiesIsFirstTop(pep, candidates, k);
      FirstTopWins(l, k, ge);
    }
  }

  /** Settled candidates are ranked correctly. */
  lemma SettledBestIsHighest(pep: Pep440, candidates: seq<Option<string>>)
    requires RankVersions(pep, candidates).best.Some?
    requires Settled(ComparableSet(pep, candidates), DescendingOrder(pep))
    ensures IsHighest(pep, candidates, RankVersions(pep, candidates).best.value)
  {
    BestIsFirst(pep, candidates);
    AnySortIsHighestIff(pep, candidates);
  }

  // ----- the promise fails -----

  ghost predicate Misranked(pep: Pep440, candidates: seq<Option<string>>, higher: string) {
    var r := RankVersions(pep, candidates);
    !r.uncertain && r.best.Some? && higher in Stripped(candidates) && CompareVersions(pep, higher, r.best.value) == 1
  }

  ghost predicate ComparableCycle(pep: Pep440, a: string, b: string, c: string) {
    && IsComparable(pep, a) && IsComparable(pep, b) && IsComparable(pep, c)
    && CompareVersions(pep, a, b) == -1 && CompareVersions(pep, b, c) == -1 && CompareVersions(pep, c, a) == -1
  }

  predicate OneOf(v: string, a: string, b: string, c: string) {
    v == a || v == b || v == c
  }

  ghost predicate AreCandidates(candidates: seq<Option<string>>, a: string, b: string, c: string) {
    forall v :: v in Stripped(candidates) <==> OneOf(v, a, b, c)
  }

  lemma CandidatesAmong(candidates: seq<Option<string>>, a: string, b: string, c: string, p: string -> bool)
    requires AreCandidates(candidates, a, b, c) && p(a) && p(b) && p(c)
    ensures a in Stripped(candidates) && forall v :: v in Stripped(candidates) ==> p(v)
  {
    assert OneOf(a, a, b, c);
    forall v | v in Stripped(candidates) ensures p(v) {
      assert OneOf(v, a, b, c);
    }
  }

  lemma BestOfCycle(
    pep: Pep440, candidates: seq<Option<string>>, a: string, b: string, c: string) returns (best: string)
    requires AreCandidates(candidates, a, b, c) && IsComparable(pep, a) && IsComparable(pep, b) && IsComparable(pep, c)
    ensures !RankVersions(pep, candidates).uncertain && RankVersions(pep, candidates).best == Some(best)
    ensures best in Stripped(candidates)
  {
    CandidatesAmong(candidates, a, b, c, v => IsComparable(pep, v));
    RankPermutes(pep, candidates);
    best := RankVersions(pep, candidates).best.value;
  }

  lemma HigherInCycle(pep: Pep440, a: string, b: string, c: string, target: string) returns (higher: string)
    requires ComparableCycle(pep, a, b, c) && OneOf(target, a, b, c)
    ensures OneOf(higher, a, b, c) && CompareVersions(pep, higher, target) == 1
  {
    higher := MixedHasNoHighest(pep, a, b, c, target);
  }

  /** Candidates that are exactly a cycle of comparable versions are ranked without doubt,
      and the best one is below another. */
  lemma CycleIsMisranked(
    pep: Pep440, candidates: seq<Option<string>>, a: string, b: string, c: string) returns (higher: string)
    requires AreCandidates(candidates, a, b, c) && ComparableCycle(pep, a, b, c)
    ensures Misranked(pep, candidates, higher)
  {
    var best := BestOfCycle(pep, candidates, a, b, c);
    assert OneOf(best, a, b, c);
    higher := HigherInCycle(pep, a, b, c, best);
    assert OneOf(higher, a, b, c);
  }

  /** rank_versions(["1.0rc1", "1.0", "1.0-foo"]) */
  lemma ReleaseIsMisranked(pep: Pep440, candidates: seq<Option<string>>) returns (higher: string)
    requires pep("1.0rc1").Some? && pep("1.0").Some? && pep("1.0-foo").None?
    requires pep("1.0rc1").value < pep("1.0").value
    requires AreCandidates(candidates, "1.0rc1", "1.0", "1.0-foo")
    ensures Misranked(pep, candidates, higher)
  {
    ReleaseCycle(pep);
    higher := CycleIsMisranked(pep, candidates, "1.0rc1", "1.0", "1.0-foo");
  }
}
