/** Python's orders and sorts: code-point order on strings, stable sorting by a
    comparison, and the canonical listing `sorted(set(...))`. */
module Ordering {

  /** `a <= b` on strings. */
  predicate StrLe(a: string, b: string) {
    if a == [] then true
    else if b == [] then false
    else if a[0] != b[0] then a[0] < b[0]
    else StrLe(a[1..], b[1..])
  }

  ghost predicate TotalPreorder<T(!new)>(le: (T, T) -> bool) {
    && (forall x, y :: le(x, y) || le(y, x))
    && (forall x, y, z :: le(x, y) && le(y, z) ==> le(x, z))
  }

  ghost predicate TotalOrder<T(!new)>(le: (T, T) -> bool) {
    TotalPreorder(le) && forall x, y :: le(x, y) && le(y, x) ==> x == y
  }

  lemma {:induction false} StrLeTotal(a: string, b: string)
    ensures StrLe(a, b) || StrLe(b, a)
    ensures StrLe(a, b) && StrLe(b, a) ==> a == b
  {
    if a != [] && b != [] && a[0] == b[0] {
      StrLeTotal(a[1..], b[1..]);
      assert a == [a[0]] + a[1..] && b == [b[0]] + b[1..];
    }
  }

  lemma {:induction false} StrLeTransitive(a: string, b: string, c: string)
    requires StrLe(a, b) && StrLe(b, c)
    ensures StrLe(a, c)
  {
    if a != [] && a[0] == b[0] == c[0] {
      StrLeTransitive(a[1..], b[1..], c[1..]);
    }
  }

  lemma StrLeOrder()
    ensures TotalOrder(StrLe)
  {
    forall a, b ensures StrLe(a, b) || StrLe(b, a) { StrLeTotal(a, b); }
    forall a, b | StrLe(a, b) && StrLe(b, a) ensures a == b { StrLeTotal(a, b); }
    forall a, b, c | StrLe(a, b) && StrLe(b, c) ensures StrLe(a, c) { StrLeTransitive(a, b, c); }
  }

  /** Tuples compare by their first component, ties by the second. */
  predicate LexLe(a: string, a2: string, b: string, b2: string) {
    if a != b then StrLe(a, b) else StrLe(a2, b2)
  }

  ghost predicate Sorted<T>(s: seq<T>, le: (T, T) -> bool) {
    forall i, j :: 0 <= i < j < |s| ==> le(s[i], s[j])
  }

  ghost predicate Distinct<T>(s: seq<T>) {
    forall i, j :: 0 <= i < j < |s| ==> s[i] != s[j]
  }

  ghost function Elems<T>(s: seq<T>): set<T> {
    set x | x in s
  }

  // ----- stable sorting: sorted(s, key=...) -----

  function Insert<T>(x: T, s: seq<T>, le: (T, T) -> bool): seq<T> {
    if s == [] || le(x, s[0]) then [x] + s else [s[0]] + Insert(x, s[1..], le)
  }

  function Sort<T>(s: seq<T>, le: (T, T) -> bool): seq<T> {
    if s == [] then [] else Insert(s[0], Sort(s[1..], le), le)
  }

  lemma {:induction false} InsertPermutes<T>(x: T, s: seq<T>, le: (T, T) -> bool)
    ensures multiset(Insert(x, s, le)) == multiset{x} + multiset(s)
  {
    if s != [] && !le(x, s[0]) {
      InsertPermutes(x, s[1..], le);
      assert s == [s[0]] + s[1..];
    }
  }

  lemma {:induction false} SortPermutes<T>(s: seq<T>, le: (T, T) -> bool)
    ensures multiset(Sort(s, le)) == multiset(s)
    ensures |Sort(s, le)| == |s|
    ensures forall x :: x in Sort(s, le) <==> x in s
  {
    if s != [] {
      SortPermutes(s[1..], le);
      InsertPermutes(s[0], Sort(s[1..], le), le);
      assert s == [s[0]] + s[1..];
    }
    assert |multiset(Sort(s, le))| == |multiset(s)|;
    forall x ensures x in Sort(s, le) <==> x in s {
      assert x in Sort(s, le) <==> x in multiset(Sort(s, le));
      assert x in s <==> x in multiset(s);
    }
  }

  /** The comparison is a total preorder on the elements of `s`. */
  ghost predicate PreorderOn<T(!new)>(s: seq<T>, le: (T, T) -> bool) {
    && (forall x, y :: x in s && y in s ==> le(x, y) || le(y, x))
    && (forall x, y, z :: x in s && y in s && z in s && le(x, y) && le(y, z) ==> le(x, z))
  }

  lemma TailSorted<T>(s: seq<T>, le: (T, T) -> bool)
    requires s != [] && Sorted(s, le)
    ensures Sorted(s[1..], le)
    ensures forall x :: x in s[1..] ==> le(s[0], x)
  {
    assert forall i :: 0 <= i < |s[1..]| ==> s[1..][i] == s[i + 1];
  }

  lemma InsertMembers<T>(x: T, s: seq<T>, le: (T, T) -> bool)
    ensures forall y :: y in Insert(x, s, le) <==> y == x || y in s
  {
    InsertPermutes(x, s, le);
    forall y ensures y in Insert(x, s, le) <==> y == x || y in s {
      assert y in Insert(x, s, le) <==> y in multiset(Insert(x, s, le));
    }
  }

  lemma ConsSorted<T>(x: T, s: seq<T>, le: (T, T) -> bool)
    requires Sorted(s, le) && forall y :: y in s ==> le(x, y)
    ensures Sorted([x] + s, le)
  {
  }

  lemma {:induction false} InsertSorts<T(!new)>(x: T, s: seq<T>, le: (T, T) -> bool)
    requires PreorderOn([x] + s, le) && Sorted(s, le)
    ensures Sorted(Insert(x, s, le), le)
  {
    assert x in [x] + s && forall y :: y in s ==> y in [x] + s;
    if s != [] {
      TailSorted(s, le);
      if le(x, s[0]) {
        assert forall y :: y in s ==> y == s[0] || y in s[1..];
        ConsSorted(x, s, le);
      } else {
        assert forall y :: y in [x] + s[1..] ==> y in [x] + s;
        InsertSorts(x, s[1..], le);
        InsertMembers(x, s[1..], le);
        ConsSorted(s[0], Insert(x, s[1..], le), le);
      }
    }
  }

  lemma {:induction false} SortSorts<T(!new)>(s: seq<T>, le: (T, T) -> bool)
    requires PreorderOn(s, le)
    ensures Sorted(Sort(s, le), le)
  {
    if s != [] {
      assert forall y :: y in s[1..] ==> y in s;
      SortSorts(s[1..], le);
      SortPermutes(s[1..], le);
      assert forall y :: y in [s[0]] + Sort(s[1..], le) ==> y in s;
      InsertSorts(s[0], Sort(s[1..], le), le);
    }
  }

  /** The elements satisfying `p`, in order. */
  function Filter<T>(s: seq<T>, p: T -> bool): seq<T> {
    if s == [] then []
    else (if p(s[0]) then [s[0]] else []) + Filter(s[1..], p)
  }

  lemma {:induction false} FilterMembers<T(!new)>(s: seq<T>, p: T -> bool)
    ensures forall x :: x in Filter(s, p) <==> x in s && p(x)
    ensures Distinct(s) ==> Distinct(Filter(s, p))
  {
    if s != [] {
      FilterMembers(s[1..], p);
    }
  }

  lemma {:induction false} InsertStable<T(!new)>(x: T, s: seq<T>, le: (T, T) -> bool, p: T -> bool)
    requires forall a, b :: p(a) && p(b) ==> le(a, b)
    ensures Filter(Insert(x, s, le), p) == Filter([x] + s, p)
  {
    assert ([x] + s)[1..] == s;
    if s != [] && !le(x, s[0]) {
      InsertStable(x, s[1..], le, p);
      assert ([x] + s[1..])[1..] == s[1..];
      var r := [s[0]] + Insert(x, s[1..], le);
      assert r[1..] == Insert(x, s[1..], le);
    }
  }

  /** Stability: elements that compare equal keep their order. */
  lemma {:induction false} SortStable<T(!new)>(s: seq<T>, le: (T, T) -> bool, p: T -> bool)
    requires forall a, b :: p(a) && p(b) ==> le(a, b)
    ensures Filter(Sort(s, le), p) == Filter(s, p)
  {
    if s != [] {
      SortStable(s[1..], le, p);
      InsertStable(s[0], Sort(s[1..], le), le, p);
      assert ([s[0]] + Sort(s[1..], le))[1..] == Sort(s[1..], le);
    }
  }

  /** First by `le1`, ties by `le2`. */
  predicate Lex<T(!new)>(le1: (T, T) -> bool, le2: (T, T) -> bool, x: T, y: T) {
    le1(x, y) && (le1(y, x) ==> le2(x, y))
  }

  lemma {:induction false} InsertLex<T(!new)>(x: T, s: seq<T>, le1: (T, T) -> bool, le2: (T, T) -> bool)
    requires TotalPreorder(le1) && Sorted(s, (a, b) => Lex(le1, le2, a, b))
    requires forall y :: y in s ==> le2(x, y)
    ensures Sorted(Insert(x, s, le1), (a, b) => Lex(le1, le2, a, b))
  {
    if s != [] {
      if le1(x, s[0]) {
        forall i | 0 <= i < |s| ensures Lex(le1, le2, x, s[i]) {
          assert i > 0 ==> Lex(le1, le2, s[0], s[i]);
        }
      } else {
        InsertLex(x, s[1..], le1, le2);
        InsertPermutes(x, s[1..], le1);
        var r := Insert(x, s[1..], le1);
        forall i | 0 <= i < |r| ensures Lex(le1, le2, s[0], r[i]) {
          assert r[i] in multiset(r);
          if r[i] in s[1..] {
            var k :| 0 <= k < |s[1..]| && s[1..][k] == r[i];
            assert Lex(le1, le2, s[0], s[k + 1]);
          }
        }
      }
    }
  }

  /** Sorting a list that is already sorted by the tie-breaker orders it by both keys. */
  lemma {:induction false} SortLex<T(!new)>(s: seq<T>, le1: (T, T) -> bool, le2: (T, T) -> bool)
    requires TotalPreorder(le1) && Sorted(s, le2)
    ensures Sorted(Sort(s, le1), (a, b) => Lex(le1, le2, a, b))
  {
    if s != [] {
      SortLex(s[1..], le1, le2);
      SortPermutes(s[1..], le1);
      forall y | y in Sort(s[1..], le1) ensures le2(s[0], y) {
        var k :| 0 <= k < |s[1..]| && s[1..][k] == y;
        assert s[k + 1] == y;
      }
      InsertLex(s[0], Sort(s[1..], le1), le1, le2);
    }
  }

  /** Different elements of `s` never compare equal. */
  ghost predicate AntisymmetricOn<T(!new)>(s: seq<T>, le: (T, T) -> bool) {
    forall x, y :: x in s && y in s && le(x, y) && le(y, x) ==> x == y
  }

  /** A sorted list is determined by its elements and their number. */
  lemma {:induction false} SortedUnique<T(!new)>(a: seq<T>, b: seq<T>, le: (T, T) -> bool)
    requires AntisymmetricOn(a, le) && Sorted(a, le) && Sorted(b, le)
    requires multiset(a) == multiset(b)
    ensures a == b
  {
    assert |multiset(a)| == |multiset(b)|;
    if a != [] {
      SameFirst(a, b, le);
      SameTails(a, b, le);
      SortedUnique(a[1..], b[1..], le);
      assert a == [a[0]] + a[1..] && b == [b[0]] + b[1..];
    }
  }

  lemma HeadOut<T>(a: seq<T>)
    requires a != []
    ensures multiset(a[1..]) == multiset(a) - multiset{a[0]}
  {
    assert a == [a[0]] + a[1..];
  }

  lemma SameTails<T(!new)>(a: seq<T>, b: seq<T>, le: (T, T) -> bool)
    requires AntisymmetricOn(a, le) && Sorted(a, le) && Sorted(b, le)
    requires multiset(a) == multiset(b) && a != [] && b != [] && a[0] == b[0]
    ensures AntisymmetricOn(a[1..], le) && Sorted(a[1..], le) && Sorted(b[1..], le)
    ensures multiset(a[1..]) == multiset(b[1..])
  {
    HeadOut(a);
    HeadOut(b);
    TailSorted(a, le);
    TailSorted(b, le);
    assert forall x :: x in a[1..] ==> x in a;
  }

  lemma SameFirst<T(!new)>(a: seq<T>, b: seq<T>, le: (T, T) -> bool)
    requires AntisymmetricOn(a, le) && Sorted(a, le) && Sorted(b, le)
    requires multiset(a) == multiset(b) && a != [] && b != []
    ensures a[0] == b[0]
  {
    assert a[0] in multiset(b) && b[0] in multiset(a);
    var i :| 0 <= i < |a| && a[i] == b[0];
    var j :| 0 <= j < |b| && b[j] == a[0];
    if i > 0 && j > 0 {
      assert a[0] in a && b[0] in a;
    }
  }

  // ----- duplicates: dict.fromkeys(s) and sorted(set(s)) -----

  /** First occurrences only, in order. */
  function Dedup<T(==,!new)>(s: seq<T>): (r: seq<T>)
    ensures Distinct(r)
    ensures forall x :: x in r <==> x in s
  {
    if s == [] then []
    else
      var d := Dedup(s[..|s| - 1]);
      assert s == s[..|s| - 1] + [s[|s| - 1]];
      if s[|s| - 1] in d then d else d + [s[|s| - 1]]
  }

  lemma {:induction false} DistinctMultiset<T>(a: seq<T>, b: seq<T>)
    requires Distinct(a) && Distinct(b) && Elems(a) == Elems(b)
    ensures multiset(a) == multiset(b)
  {
    DistinctCounts(a);
    DistinctCounts(b);
    forall x ensures multiset(a)[x] == multiset(b)[x] {
      assert x in a <==> x in Elems(a);
      assert x in b <==> x in Elems(b);
    }
  }

  lemma {:induction false} DistinctCounts<T>(a: seq<T>)
    requires Distinct(a)
    ensures forall x :: multiset(a)[x] == if x in a then 1 else 0
  {
    if a != [] {
      var n := |a| - 1;
      DistinctCounts(a[..n]);
      assert a == a[..n] + [a[n]];
    }
  }

  /** `sorted(set(s))` */
  function SortedDistinct<T(==,!new)>(s: seq<T>, le: (T, T) -> bool): seq<T> {
    Sort(Dedup(s), le)
  }

  ghost predicate Canonical<T(!new)>(l: seq<T>, elems: set<T>, le: (T, T) -> bool) {
    Sorted(l, le) && Distinct(l) && Elems(l) == elems
  }

  lemma PermutationDistinct<T>(a: seq<T>, b: seq<T>)
    requires Distinct(a) && multiset(a) == multiset(b)
    ensures Distinct(b)
  {
    DistinctCounts(a);
    forall i, j | 0 <= i < j < |b| ensures b[i] != b[j] {
      assert b == b[..j] + [b[j]] + b[j + 1..];
      assert b[i] in multiset(b[..j]) && multiset(b)[b[i]] <= 1;
      assert multiset(b) == multiset(b[..j]) + multiset{b[j]} + multiset(b[j + 1..]);
    }
  }

  lemma SortDistinctCanonical<T(!new)>(s: seq<T>, le: (T, T) -> bool)
    requires PreorderOn(s, le) && Distinct(s)
    ensures Canonical(Sort(s, le), Elems(s), le)
  {
    SortPermutes(s, le);
    SortSorts(s, le);
    PermutationDistinct(s, Sort(s, le));
  }

  lemma SortedDistinctCanonical<T(!new)>(s: seq<T>, le: (T, T) -> bool)
    requires PreorderOn(s, le)
    ensures Canonical(SortedDistinct(s, le), Elems(s), le)
  {
    SortDistinctCanonical(Dedup(s), le);
    assert Elems(Dedup(s)) == Elems(s);
  }

  lemma CanonicalUnique<T(!new)>(a: seq<T>, b: seq<T>, elems: set<T>, le: (T, T) -> bool)
    requires AntisymmetricOn(a, le) && Canonical(a, elems, le) && Canonical(b, elems, le)
    ensures a == b
  {
    DistinctMultiset(a, b);
    SortedUnique(a, b, le);
  }

  /** The sorted listing of a set. */
  ghost function SortedOf<T(!new)>(elems: set<T>, le: (T, T) -> bool): seq<T> {
    if elems == {} then [] else var x :| x in elems; Insert(x, SortedOf(elems - {x}, le), le)
  }

  lemma {:induction false} SortedOfCanonical<T(!new)>(elems: set<T>, le: (T, T) -> bool)
    requires TotalOrder(le)
    ensures Canonical(SortedOf(elems, le), elems, le)
  {
    if elems != {} {
      var x :| x in elems && SortedOf(elems, le) == Insert(x, SortedOf(elems - {x}, le), le);
      var rest := SortedOf(elems - {x}, le);
      SortedOfCanonical(elems - {x}, le);
      InsertSorts(x, rest, le);
      InsertIsNew(x, rest, le);
      assert elems == Elems(rest) + {x};
    }
  }

  lemma InsertIsNew<T(!new)>(x: T, s: seq<T>, le: (T, T) -> bool)
    requires Distinct(s) && x !in Elems(s)
    ensures Distinct(Insert(x, s, le)) && Elems(Insert(x, s, le)) == Elems(s) + {x}
  {
    InsertPermutes(x, s, le);
    assert multiset([x] + s) == multiset(Insert(x, s, le));
    assert Distinct([x] + s) by { assert x !in s; }
    PermutationDistinct([x] + s, Insert(x, s, le));
    forall y ensures y in Insert(x, s, le) <==> y in s || y == x {
      assert y in Insert(x, s, le) <==> y in multiset(Insert(x, s, le));
    }
  }

  /** Sorting a duplicate-free list gives the sorted listing of its elements. */
  lemma SortIsSortedOf<T(!new)>(s: seq<T>, le: (T, T) -> bool)
    requires TotalOrder(le) && Distinct(s)
    ensures Sort(s, le) == SortedOf(Elems(s), le)
  {
    SortDistinctCanonical(s, le);
    SortedOfCanonical(Elems(s), le);
    CanonicalUnique(Sort(s, le), SortedOf(Elems(s), le), Elems(s), le);
  }
}
