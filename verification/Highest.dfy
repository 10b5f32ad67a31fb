/** What comes first when a total comparison that need not be transitive is sorted by. A
    comparison sort leaves neighbours in order, whatever else it does. */
module Highest {
  import opened Ordering

  ghost predicate Total<T(!new)>(ge: (T, T) -> bool) {
    forall x, y :: ge(x, y) || ge(y, x)
  }

  ghost predicate TransitiveIn<T(!new)>(s: set<T>, ge: (T, T) -> bool) {
    forall a, b, c :: a in s && b in s && c in s && ge(a, b) && ge(b, c) ==> ge(a, c)
  }

  /** Every element stands correctly to the next one. */
  ghost predicate Stepwise<T>(l: seq<T>, ge: (T, T) -> bool) {
    forall i :: 0 <= i < |l| - 1 ==> ge(l[i], l[i + 1])
  }

  ghost predicate Lists<T>(l: seq<T>, s: set<T>) {
    Distinct(l) && Elems(l) == s
  }

  /** An order of `s` that a comparison sort may leave. */
  ghost predicate MayReturn<T>(l: seq<T>, s: set<T>, ge: (T, T) -> bool) {
    Lists(l, s) && Stepwise(l, ge)
  }

  predicate Top<T>(x: T, s: set<T>, ge: (T, T) -> bool) {
    x in s && forall y :: y in s ==> ge(x, y)
  }

  /** Some element is at least as high as every other, and whatever ties with such an
      element is one too. */
  ghost predicate Settled<T(!new)>(s: set<T>, ge: (T, T) -> bool) {
    (exists h :: Top(h, s, ge)) && forall x, h :: x in s && Top(h, s, ge) && ge(x, h) ==> Top(x, s, ge)
  }

  // ----- insertion sort is a comparison sort -----

  lemma TailIsStepwise<T>(l: seq<T>, ge: (T, T) -> bool)
    requires l != [] && Stepwise(l, ge)
    ensures Stepwise(l[1..], ge)
  {
    forall i | 0 <= i < |l[1..]| - 1 ensures ge(l[1..][i], l[1..][i + 1]) {
      assert l[1..][i] == l[i + 1] && l[1..][i + 1] == l[i + 1 + 1];
    }
  }

  lemma {:induction false} InsertIsStepwise<T(!new)>(x: T, l: seq<T>, ge: (T, T) -> bool)
    requires Total(ge) && Stepwise(l, ge)
    ensures Stepwise(Insert(x, l, ge), ge)
    ensures Insert(x, l, ge)[0] == if l == [] || ge(x, l[0]) then x else l[0]
  {
    var r := Insert(x, l, ge);
    if l == [] {
    } else if ge(x, l[0]) {
      forall i | 0 <= i < |r| - 1 ensures ge(r[i], r[i + 1]) {
        if i > 0 { assert r[i] == l[i - 1] && r[i + 1] == l[i - 1 + 1]; }
      }
    } else {
      TailIsStepwise(l, ge);
      InsertIsStepwise(x, l[1..], ge);
      var tail := Insert(x, l[1..], ge);
      assert r == [l[0]] + tail;
      assert ge(l[0], tail[0]) by {
        if tail[0] != x { assert ge(l[0], l[0 + 1]); }
      }
      forall i | 0 <= i < |r| - 1 ensures ge(r[i], r[i + 1]) {
        if i > 0 { assert r[i] == tail[i - 1] && r[i + 1] == tail[i - 1 + 1]; }
      }
    }
  }

  lemma {:induction false} SortIsStepwise<T(!new)>(l: seq<T>, ge: (T, T) -> bool)
    requires Total(ge)
    ensures Stepwise(Sort(l, ge), ge)
  {
    if l != [] {
      SortIsStepwise(l[1..], ge);
      InsertIsStepwise(l[0], Sort(l[1..], ge), ge);
    }
  }

  lemma SortMayReturn<T(!new)>(l: seq<T>, ge: (T, T) -> bool)
    requires Total(ge) && Distinct(l)
    ensures MayReturn(Sort(l, ge), Elems(l), ge)
  {
    SortPermutes(l, ge);
    PermutationDistinct(l, Sort(l, ge));
    SortIsStepwise(l, ge);
    SameElements(l, Sort(l, ge));
  }

  lemma SameElements<T>(a: seq<T>, b: seq<T>)
    requires multiset(a) == multiset(b)
    ensures Elems(a) == Elems(b) && |a| == |b|
  {
    assert |multiset(a)| == |a| && |multiset(b)| == |b|;
    forall x ensures x in a <==> x in b {
      assert x in a <==> x in multiset(a);
      assert x in b <==> x in multiset(b);
    }
  }

  // ----- ties -----

  /** Neighbours are in order by `ge`, and by `le` where they tie. */
  predicate InTurn<T(!new)>(x: T, y: T, ge: (T, T) -> bool, le: (T, T) -> bool) {
    ge(x, y) && (ge(y, x) ==> le(x, y))
  }

  ghost predicate AllInTurn<T(!new)>(l: seq<T>, ge: (T, T) -> bool, le: (T, T) -> bool) {
    forall i :: 0 <= i < |l| - 1 ==> InTurn(l[i], l[i + 1], ge, le)
  }

  lemma ConsInTurn<T(!new)>(x: T, l: seq<T>, ge: (T, T) -> bool, le: (T, T) -> bool)
    requires AllInTurn(l, ge, le) && (l != [] ==> InTurn(x, l[0], ge, le))
    ensures AllInTurn([x] + l, ge, le)
  {
    var r := [x] + l;
    forall i | 0 <= i < |r| - 1 ensures InTurn(r[i], r[i + 1], ge, le) {
      if i > 0 { assert r[i] == l[i - 1] && r[i + 1] == l[i - 1 + 1]; }
    }
  }

  lemma TailInTurn<T(!new)>(l: seq<T>, ge: (T, T) -> bool, le: (T, T) -> bool)
    requires l != [] && AllInTurn(l, ge, le)
    ensures AllInTurn(l[1..], ge, le) && (|l| > 1 ==> InTurn(l[0], l[1], ge, le))
  {
    forall i | 0 <= i < |l[1..]| - 1 ensures InTurn(l[1..][i], l[1..][i + 1], ge, le) {
      assert l[1..][i] == l[i + 1] && l[1..][i + 1] == l[i + 1 + 1];
    }
    if |l| > 1 { assert InTurn(l[0], l[0 + 1], ge, le); }
  }

  lemma {:induction false} InsertInTurn<T(!new)>(x: T, l: seq<T>, ge: (T, T) -> bool, le: (T, T) -> bool)
    requires Total(ge) && AllInTurn(l, ge, le) && forall y :: y in l ==> le(x, y)
    ensures AllInTurn(Insert(x, l, ge), ge, le)
    ensures Insert(x, l, ge)[0] == if l == [] || ge(x, l[0]) then x else l[0]
  {
    if l == [] || ge(x, l[0]) {
      ConsInTurn(x, l, ge, le);
    } else {
      TailInTurn(l, ge, le);
      InsertInTurn(x, l[1..], ge, le);
      ConsInTurn(l[0], Insert(x, l[1..], ge), ge, le);
    }
  }

  /** A stable sort leaves ties as it found them. */
  lemma {:induction false} SortInTurn<T(!new)>(l: seq<T>, ge: (T, T) -> bool, le: (T, T) -> bool)
    requires Total(ge) && Sorted(l, le)
    ensures AllInTurn(Sort(l, ge), ge, le)
  {
    if l != [] {
      TailSorted(l, le);
      SortInTurn(l[1..], ge, le);
      SortPermutes(l[1..], ge);
      SameElements(l[1..], Sort(l[1..], ge));
      forall y | y in Sort(l[1..], ge) ensures le(l[0], y) {
        assert y in Elems(Sort(l[1..], ge)) && y in Elems(l[1..]);
      }
      InsertInTurn(l[0], Sort(l[1..], ge), ge, le);
    }
  }

  // ----- when the first element is the highest, whatever the sort -----

  /** A settled set is led by a highest element in every order a sort may leave. */
  lemma {:induction false} LeaderIsTop<T(!new)>(l: seq<T>, s: set<T>, k: nat, ge: (T, T) -> bool)
    requires Stepwise(l, ge) && Elems(l) <= s && k < |l| && Top(l[k], s, ge) && Settled(s, ge)
    ensures Top(l[0], s, ge)
  {
    if k > 0 {
      assert ge(l[k - 1], l[k - 1 + 1]);
      assert l[k - 1] in Elems(l);
      LeaderIsTop(l, s, k - 1, ge);
    }
  }

  lemma ListingExists<T(!new)>(s: set<T>) returns (l: seq<T>)
    ensures Lists(l, s)
    decreases |s|
  {
    if s == {} {
      return [];
    }
    var x :| x in s;
    var rest := ListingExists(s - {x});
    l := rest + [x];
    assert x !in Elems(rest);
    forall i | 0 <= i < |rest| ensures rest[i] != x {
      assert rest[i] in Elems(rest);
    }
    forall y ensures y in l <==> y in s {
      assert y in rest <==> y in Elems(rest);
    }
  }

  /** An order that begins with `x` and `h`, when `h` is a highest element `x` ties with. */
  lemma LedBy<T(!new)>(s: set<T>, x: T, h: T, ge: (T, T) -> bool) returns (l: seq<T>)
    requires Total(ge) && x in s && x != h && Top(h, s, ge) && ge(x, h)
    ensures MayReturn(l, s, ge) && l[0] == x
  {
    var rest := ListingExists(s - {x, h});
    SortMayReturn(rest, ge);
    var tail := Sort(rest, ge);
    l := [x, h] + tail;
    assert Elems(l) == s by {
      forall y ensures y in l <==> y in s {
        assert y in tail <==> y in Elems(tail);
        assert y in l <==> y == x || y == h || y in tail;
      }
    }
    LedDistinct(x, h, tail);
    forall i | 0 <= i < |l| - 1 ensures ge(l[i], l[i + 1]) {
      if i == 1 {
        assert l[2] in Elems(l);
      } else if i > 1 {
        assert l[i] == tail[i - 2] && l[i + 1] == tail[i - 2 + 1];
      }
    }
  }

  lemma LedDistinct<T>(x: T, h: T, tail: seq<T>)
    requires Distinct(tail) && x != h && x !in Elems(tail) && h !in Elems(tail)
    ensures Distinct([x, h] + tail)
  {
    var l := [x, h] + tail;
    forall i, j | 0 <= i < j < |l| ensures l[i] != l[j] {
      if j >= 2 { assert l[j] == tail[j - 2] && l[j] in Elems(tail); }
      if i >= 2 { assert l[i] == tail[i - 2]; }
    }
  }

  /** The exact condition: every sort puts a highest element first iff the set is settled. */
  lemma AnySortIffSettled<T(!new)>(s: set<T>, ge: (T, T) -> bool)
    requires Total(ge) && s != {}
    ensures (forall l :: MayReturn(l, s, ge) ==> l != [] && Top(l[0], s, ge)) <==> Settled(s, ge)
  {
    if Settled(s, ge) {
      forall l | MayReturn(l, s, ge) ensures l != [] && Top(l[0], s, ge) {
        var h :| Top(h, s, ge);
        assert h in Elems(l);
        var k :| 0 <= k < |l| && l[k] == h;
        LeaderIsTop(l, s, k, ge);
      }
    } else {
      var l := UnsettledOrder(s, ge);
      assert MayReturn(l, s, ge);
    }
  }

  lemma UnsettledOrder<T(!new)>(s: set<T>, ge: (T, T) -> bool) returns (l: seq<T>)
    requires Total(ge) && s != {} && !Settled(s, ge)
    ensures MayReturn(l, s, ge) && (l == [] || !Top(l[0], s, ge))
  {
    if h :| Top(h, s, ge) {
      var x, h' :| x in s && Top(h', s, ge) && ge(x, h') && !Top(x, s, ge);
      l := LedBy(s, x, h', ge);
    } else {
      var any := ListingExists(s);
      SortMayReturn(any, ge);
      l := Sort(any, ge);
    }
  }

  // ----- every subset is settled exactly when the comparison is transitive -----

  lemma TransitiveIsSettled<T(!new)>(s: set<T>, ge: (T, T) -> bool)
    requires Total(ge) && TransitiveIn(s, ge) && s != {}
    ensures Settled(s, ge)
  {
    var l := ListingExists(s);
    assert PreorderOn(l, ge) by {
      assert forall x :: x in l ==> x in Elems(l);
    }
    SortSorts(l, ge);
    SortMayReturn(l, ge);
    var sorted := Sort(l, ge);
    assert Top(sorted[0], s, ge) by {
      assert sorted[0] in Elems(sorted);
      forall y | y in s ensures ge(sorted[0], y) {
        assert y in Elems(sorted);
        var k :| 0 <= k < |sorted| && sorted[k] == y;
        assert ge(sorted[0], sorted[0]);
      }
    }
  }

  /** Sorting puts a highest element first for every choice of elements of `s`, in every
      initial order, iff the comparison is transitive on `s`. */
  lemma AlwaysHighestIffTransitive<T(!new)>(s: set<T>, ge: (T, T) -> bool)
    requires Total(ge)
    ensures (forall l :: l != [] && Distinct(l) && Elems(l) <= s ==> Top(Sort(l, ge)[0], Elems(l), ge))
            <==> TransitiveIn(s, ge)
  {
    if TransitiveIn(s, ge) {
      forall l | l != [] && Distinct(l) && Elems(l) <= s ensures Top(Sort(l, ge)[0], Elems(l), ge) {
        assert l[0] in Elems(l);
        TransitiveIsSettled(Elems(l), ge);
        SortMayReturn(l, ge);
        AnySortIffSettled(Elems(l), ge);
      }
    } else {
      var a, b, c :| a in s && b in s && c in s && ge(a, b) && ge(b, c) && !ge(a, c);
      var l := [a, b, c];
      CycleSortsToItself(a, b, c, ge);
      assert Elems(l) <= s && c in Elems(l);
    }
  }

  lemma CycleSortsToItself<T(!new)>(a: T, b: T, c: T, ge: (T, T) -> bool)
    requires Total(ge) && ge(a, b) && ge(b, c) && !ge(a, c)
    ensures Distinct([a, b, c]) && Sort([a, b, c], ge) == [a, b, c]
  {
    assert [a, b, c][1..] == [b, c] && [b, c][1..] == [c] && [c][1..] == [];
    assert Sort([c], ge) == [c];
    assert Sort([b, c], ge) == [b, c];
  }

  // ----- insertion sort decides ties by the initial order -----

  ghost predicate FirstTop<T>(l: seq<T>, k: nat, ge: (T, T) -> bool) {
    k < |l| && Top(l[k], Elems(l), ge) && forall j :: 0 <= j < k ==> !ge(l[j], l[k])
  }

  lemma TailElems<T>(l: seq<T>)
    requires l != []
    ensures Elems(l) == {l[0]} + Elems(l[1..])
  {
    assert l == [l[0]] + l[1..];
  }

  lemma {:induction false} FirstTopWins<T(!new)>(l: seq<T>, k: nat, ge: (T, T) -> bool)
    requires Total(ge) && FirstTop(l, k, ge)
    ensures Sort(l, ge)[0] == l[k]
    decreases |l|
  {
    TailElems(l);
    SortIsStepwise(l[1..], ge);
    InsertIsStepwise(l[0], Sort(l[1..], ge), ge);
    SortPermutes(l[1..], ge);
    SameElements(l[1..], Sort(l[1..], ge));
    if k > 0 {
      assert l[1..][k - 1] == l[k];
      assert forall j :: 0 <= j < k - 1 ==> l[1..][j] == l[j + 1];
      FirstTopWins(l[1..], k - 1, ge);
    } else if l[1..] != [] {
      assert Sort(l[1..], ge)[0] in Elems(Sort(l[1..], ge));
    }
  }

  lemma {:induction false} WinnerIsFirstTop<T(!new)>(l: seq<T>, ge: (T, T) -> bool) returns (k: nat)
    requires Total(ge) && l != [] && Top(Sort(l, ge)[0], Elems(l), ge)
    ensures FirstTop(l, k, ge)
    decreases |l|
  {
    TailElems(l);
    SortIsStepwise(l[1..], ge);
    InsertIsStepwise(l[0], Sort(l[1..], ge), ge);
    if l[1..] == [] || ge(l[0], Sort(l[1..], ge)[0]) {
      return 0;
    }
    SortPermutes(l[1..], ge);
    SameElements(l[1..], Sort(l[1..], ge));
    var winner := Sort(l[1..], ge)[0];
    assert winner in Elems(Sort(l[1..], ge));
    var i := WinnerIsFirstTop(l[1..], ge);
    FirstTopWins(l[1..], i, ge);
    assert l[1..][i] == l[i + 1] == winner;
    forall j | 0 <= j < i + 1 ensures !ge(l[j], l[i + 1]) {
      if j > 0 { assert l[1..][j - 1] == l[j]; }
    }
    return i + 1;
  }
}
