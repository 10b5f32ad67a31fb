/** What the version comparison says about version strings: numeric runs of any length,
    letters, `~`, epochs, and which strings it accepts (services/version_compare.py). */
module VersionLaws {
  import opened Text
  import opened Ordering
  import opened Versions

  // ----- segments are maximal runs -----

  lemma {:induction false} RunEnds(run: string, rest: string, p: char -> bool)
    requires (forall c :: c in run ==> p(c)) && (rest == [] || !p(rest[0]))
    ensures Run(run + rest, p) == run
  {
    if run == [] {
      assert run + rest == rest;
    } else {
      assert (run + rest)[1..] == run[1..] + rest && run[0] in run;
      RunEnds(run[1..], rest, p);
      assert [run[0]] + run[1..] == run;
    }
  }

  predicate IsNumber(d: string) {
    d != [] && AllDigits(d)
  }

  predicate StartsOutside(rest: string, p: char -> bool) {
    rest == [] || !p(rest[0])
  }

  /** A whole digit run is one number. */
  lemma NumberThen(d: string, rest: string)
    requires IsNumber(d) && StartsOutside(rest, IsDigit)
    ensures Segments(d + rest) == [Num(ParseNat(d))] + Segments(rest)
  {
    assert d[0] in d;
    RunEnds(d, rest, IsDigit);
    assert (d + rest)[|d|..] == rest;
  }

  /** A whole letter run is one word. */
  lemma WordThen(word: string, rest: string)
    requires IsWord(word) && StartsOutside(rest, IsLetter)
    ensures Segments(word + rest) == [Alpha(word)] + Segments(rest)
  {
    assert word[0] in word;
    RunEnds(word, rest, IsLetter);
    assert (word + rest)[|word|..] == rest;
  }

  lemma TildeThen(rest: string)
    ensures Segments("~" + rest) == [Tilde] + Segments(rest)
  {
    assert ("~" + rest)[1..] == rest;
  }

  /** Every other character only separates. */
  lemma OtherThen(c: char, rest: string)
    requires !IsDigit(c) && !IsLetter(c) && c != '~'
    ensures Segments([c] + rest) == Segments(rest)
  {
    assert ([c] + rest)[1..] == rest;
  }

  /** No digit run and no letter run crosses the end of `s`. */
  predicate Breaks(s: string, t: string) {
    s != [] && t != [] ==>
      !(IsDigit(s[|s| - 1]) && IsDigit(t[0])) && !(IsLetter(s[|s| - 1]) && IsLetter(t[0]))
  }

  lemma {:induction false} RunOfBoth(s: string, t: string, p: char -> bool)
    requires s != [] && t != [] ==> !(p(s[|s| - 1]) && p(t[0]))
    requires s != []
    ensures Run(s + t, p) == Run(s, p)
  {
    assert (s + t)[0] == s[0] && (s + t)[1..] == s[1..] + t;
    if p(s[0]) {
      if |s| > 1 {
        RunOfBoth(s[1..], t, p);
      } else {
        assert s[1..] == [] && [] + t == t;
      }
    }
  }

  /** How far the first segment or separator of `s` reaches, and what it gives. */
  function Head(s: string): (seq<Segment>, nat)
    requires s != []
  {
    if IsDigit(s[0]) then ([Num(ParseNat(Run(s, IsDigit)))], |Run(s, IsDigit)|)
    else if IsLetter(s[0]) then ([Alpha(Run(s, IsLetter))], |Run(s, IsLetter)|)
    else (if s[0] == '~' then [Tilde] else [], 1)
  }

  lemma HeadThenRest(s: string)
    requires s != []
    ensures 0 < Head(s).1 <= |s| && Segments(s) == Head(s).0 + Segments(s[Head(s).1..])
  {
    assert [] + Segments(s[1..]) == Segments(s[1..]);
  }

  lemma SameHead(s: string, t: string)
    requires s != [] && Breaks(s, t)
    ensures Head(s + t) == Head(s)
  {
    assert (s + t)[0] == s[0];
    if IsDigit(s[0]) {
      RunOfBoth(s, t, IsDigit);
    } else if IsLetter(s[0]) {
      RunOfBoth(s, t, IsLetter);
    }
  }

  lemma FirstPart(s: string, t: string) returns (h: seq<Segment>, n: nat)
    requires s != [] && Breaks(s, t)
    ensures 0 < n <= |s| && Breaks(s[n..], t)
    ensures Segments(s) == h + Segments(s[n..]) && Segments(s + t) == h + Segments(s[n..] + t)
  {
    HeadThenRest(s);
    h, n := Head(s).0, Head(s).1;
    HeadOfBoth(s, t, h, n);
  }

  lemma HeadOfBoth(s: string, t: string, h: seq<Segment>, n: nat)
    requires s != [] && Breaks(s, t) && Head(s) == (h, n) && n <= |s|
    ensures Breaks(s[n..], t) && Segments(s + t) == h + Segments(s[n..] + t)
  {
    HeadThenRest(s + t);
    SameHead(s, t);
    RestOfBoth(s, t, n);
  }

  lemma RestOfBoth(s: string, t: string, n: nat)
    requires n <= |s| && Breaks(s, t)
    ensures (s + t)[n..] == s[n..] + t && Breaks(s[n..], t)
  {
  }

  /** Where no run is cut, the segments of two strings follow each other. */
  lemma {:induction false} SegmentsOfBoth(s: string, t: string)
    requires Breaks(s, t)
    ensures Segments(s + t) == Segments(s) + Segments(t)
    decreases |s|
  {
    if s == [] {
      assert s + t == t && Segments(s) == [];
    } else {
      var h, n := FirstPart(s, t);
      SegmentsOfBoth(s[n..], t);
      Reassociate(h, Segments(s[n..]), Segments(t), Segments(s), Segments(s + t));
    }
  }

  lemma Reassociate<T>(a: seq<T>, b: seq<T>, c: seq<T>, ab: seq<T>, abc: seq<T>)
    requires ab == a + b && abc == a + (b + c)
    ensures abc == ab + c
  {
  }

  lemma {:induction false} SamePrefix(p: seq<Segment>, a: seq<Segment>, b: seq<Segment>)
    ensures CompareSegments(p + a, p + b) == CompareSegments(a, b)
    decreases |p|
  {
    if p == [] {
      assert p + a == a && p + b == b;
    } else {
      SlotTrichotomy(Seg(p[0]), Seg(p[0]));
      assert (p + a)[1..] == p[1..] + a && (p + b)[1..] == p[1..] + b;
      SamePrefix(p[1..], a, b);
    }
  }

  // ----- versions without an epoch -----

  /** A stripped string without an epoch and without a `v` to drop. */
  predicate IsBare(v: string) {
    ':' !in v && IsStripped(v) && (v != [] ==> v[0] !in {'v', 'V'})
  }

  /** Not both are PEP 440. */
  predicate ByRpm(pep: Pep440, a: string, b: string) {
    pep(a).None? || pep(b).None?
  }

  lemma BareIsWhole(v: string)
    requires ':' !in v && (v != [] ==> v[0] !in {'v', 'V'})
    ensures SplitEpoch(v) == (0, v)
  {
  }

  lemma BareCompare(a: string, b: string)
    requires IsBare(a) && IsBare(b)
    ensures RpmCompare(a, b) == CompareSegments(Segments(a), Segments(b))
  {
    BareIsWhole(a);
    BareIsWhole(b);
  }

  lemma BareTails(p: string, s: string, t: string)
    requires IsBare(p + s) && IsBare(p + t) && Breaks(p, s) && Breaks(p, t)
    ensures RpmCompare(p + s, p + t) == CompareSegments(Segments(s), Segments(t))
  {
    BareCompare(p + s, p + t);
    SegmentsOfBoth(p, s);
    SegmentsOfBoth(p, t);
    SamePrefix(Segments(p), Segments(s), Segments(t));
  }

  lemma CompareTails(pep: Pep440, p: string, s: string, t: string, r: int)
    requires IsBare(p + s) && IsBare(p + t) && ByRpm(pep, p + s, p + t) && Breaks(p, s) && Breaks(p, t)
    requires r == CompareSegments(Segments(s), Segments(t))
    ensures CompareVersions(pep, p + s, p + t) == r
  {
    BareTails(p, s, t);
    CompareIsRpm(pep, p + s, p + t);
  }

  /** Versions that agree up to a numeric run are ordered by the values of the runs, whatever
      their length. */
  lemma NumbersDecide(pep: Pep440, p: string, m: string, s: string, n: string, t: string)
    requires IsNumber(m) && StartsOutside(s, IsDigit) && IsNumber(n) && StartsOutside(t, IsDigit)
    requires Breaks(p, m) && Breaks(p, n) && ParseNat(m) != ParseNat(n)
    requires IsBare(p + (m + s)) && IsBare(p + (n + t)) && ByRpm(pep, p + (m + s), p + (n + t))
    ensures CompareVersions(pep, p + (m + s), p + (n + t)) == if ParseNat(m) < ParseNat(n) then -1 else 1
  {
    NumberSegments(m, s, n, t);
    CompareTails(pep, p, m + s, n + t, CompareSegments(Segments(m + s), Segments(n + t)));
  }

  lemma NumberSegments(m: string, s: string, n: string, t: string)
    requires IsNumber(m) && StartsOutside(s, IsDigit) && IsNumber(n) && StartsOutside(t, IsDigit)
    ensures CompareSegments(Segments(m + s), Segments(n + t)) ==
            if ParseNat(m) < ParseNat(n) then -1 else if ParseNat(m) > ParseNat(n) then 1
            else CompareSegments(Segments(s), Segments(t))
  {
    NumberThen(m, s);
    NumberThen(n, t);
    HeadsDecide(Num(ParseNat(m)), Segments(s), Num(ParseNat(n)), Segments(t));
  }

  lemma WordSegments(v: string, s: string, w: string, t: string)
    requires IsWord(v) && StartsOutside(s, IsLetter) && IsWord(w) && StartsOutside(t, IsLetter)
    ensures CompareSegments(Segments(v + s), Segments(w + t)) ==
            if v == w then CompareSegments(Segments(s), Segments(t)) else if StrLe(v, w) then -1 else 1
  {
    WordThen(v, s);
    WordThen(w, t);
    HeadsDecide(Alpha(v), Segments(s), Alpha(w), Segments(t));
    StrLeOrder();
  }

  lemma MixedSegments(m: string, s: string, w: string, t: string)
    requires IsNumber(m) && StartsOutside(s, IsDigit) && IsWord(w) && StartsOutside(t, IsLetter)
    ensures CompareSegments(Segments(m + s), Segments(w + t)) == 1
  {
    NumberThen(m, s);
    WordThen(w, t);
    HeadsDecide(Num(ParseNat(m)), Segments(s), Alpha(w), Segments(t));
  }

  lemma TildeSegments(s: string, t: seq<Segment>)
    requires t == [] || !t[0].Tilde?
    ensures CompareSegments(Segments("~" + s), t) == -1
  {
    TildeThen(s);
    assert At(Segments("~" + s), 0) == Seg(Tilde);
  }

  lemma HeadsDecide(x: Segment, xs: seq<Segment>, y: Segment, ys: seq<Segment>)
    ensures CompareSegments([x] + xs, [y] + ys) ==
            if SlotLess(Seg(x), Seg(y)) then -1 else if SlotLess(Seg(y), Seg(x)) then 1 else CompareSegments(xs, ys)
  {
    assert ([x] + xs)[1..] == xs && ([y] + ys)[1..] == ys;
  }

  /** Equal numbers go on to what follows, leading zeros notwithstanding. */
  lemma EqualNumbersGoOn(pep: Pep440, p: string, m: string, s: string, n: string, t: string)
    requires IsNumber(m) && StartsOutside(s, IsDigit) && IsNumber(n) && StartsOutside(t, IsDigit)
    requires Breaks(p, m) && Breaks(p, n) && ParseNat(m) == ParseNat(n)
    requires IsBare(p + (m + s)) && IsBare(p + (n + t)) && ByRpm(pep, p + (m + s), p + (n + t))
    ensures CompareVersions(pep, p + (m + s), p + (n + t)) == CompareSegments(Segments(s), Segments(t))
  {
    NumberSegments(m, s, n, t);
    CompareTails(pep, p, m + s, n + t, CompareSegments(Segments(m + s), Segments(n + t)));
  }

  /** Versions that agree up to a word are ordered by the words. */
  lemma WordsDecide(pep: Pep440, p: string, v: string, s: string, w: string, t: string)
    requires IsWord(v) && StartsOutside(s, IsLetter) && IsWord(w) && StartsOutside(t, IsLetter)
    requires Breaks(p, v) && Breaks(p, w) && v != w
    requires IsBare(p + (v + s)) && IsBare(p + (w + t)) && ByRpm(pep, p + (v + s), p + (w + t))
    ensures CompareVersions(pep, p + (v + s), p + (w + t)) == if StrLe(v, w) then -1 else 1
  {
    WordSegments(v, s, w, t);
    CompareTails(pep, p, v + s, w + t, CompareSegments(Segments(v + s), Segments(w + t)));
  }

  /** A number is newer than a word in its place. */
  lemma NumberAboveWord(pep: Pep440, p: string, m: string, s: string, w: string, t: string)
    requires IsNumber(m) && StartsOutside(s, IsDigit) && IsWord(w) && StartsOutside(t, IsLetter)
    requires Breaks(p, m) && Breaks(p, w)
    requires IsBare(p + (m + s)) && IsBare(p + (w + t)) && ByRpm(pep, p + (m + s), p + (w + t))
    ensures CompareVersions(pep, p + (m + s), p + (w + t)) == 1
  {
    MixedSegments(m, s, w, t);
    CompareTails(pep, p, m + s, w + t, CompareSegments(Segments(m + s), Segments(w + t)));
  }

  /** `~` makes a version older than the same one without it, and than any other ending. */
  lemma TildeIsOlder(pep: Pep440, p: string, s: string, t: string)
    requires Segments(t) == [] || !Segments(t)[0].Tilde?
    requires IsBare(p + ("~" + s)) && IsBare(p + t) && ByRpm(pep, p + ("~" + s), p + t) && Breaks(p, t)
    ensures CompareVersions(pep, p + ("~" + s), p + t) == -1
  {
    TildeSegments(s, Segments(t));
    CompareTails(pep, p, "~" + s, t, CompareSegments(Segments("~" + s), Segments(t)));
  }

  /** Any other ending makes it newer. */
  lemma LongerIsNewer(pep: Pep440, p: string, s: string)
    requires Segments(s) != [] && !Segments(s)[0].Tilde?
    requires IsBare(p + s) && IsBare(p) && ByRpm(pep, p + s, p) && Breaks(p, s)
    ensures CompareVersions(pep, p + s, p) == 1
  {
    NothingAdded(p);
    EndIsOlder(Segments(s));
    CompareTails(pep, p, s, [], 1);
  }

  lemma NothingAdded(p: string)
    ensures p + [] == p
  {
  }

  lemma EndIsOlder(t: seq<Segment>)
    requires t != [] && !t[0].Tilde?
    ensures CompareSegments(t, Segments([])) == 1
  {
    assert At(t, 0) == Seg(t[0]);
  }

  // ----- the `v` prefix and the epoch -----

  /** A `v` before a digit is dropped. */
  lemma VIsDropped(v: char, s: string)
    requires v in {'v', 'V'} && s != [] && IsDigit(s[0]) && ':' !in s
    ensures SplitEpoch([v] + s) == SplitEpoch(s) == (0, s)
  {
    assert ([v] + s)[1..] == s;
    assert ':' !in [v] + s;
  }

  /** Digits before the first colon are the epoch; without them it is zero. */
  lemma EpochIs(e: string, rest: string)
    requires IsNumber(e)
    ensures SplitEpoch(e + (":" + rest)).0 == ParseNat(e)
    ensures rest == [] || rest[0] !in {'v', 'V'} ==> SplitEpoch(e + (":" + rest)).1 == rest
  {
    var s := e + (":" + rest);
    assert s[|e|] == ':' && s[..|e|] == e && s[|e| + 1..] == rest;
    assert ':' !in e;
    FirstColon(s, |e|);
  }

  lemma FirstColon(s: string, k: nat)
    requires k < |s| && s[k] == ':' && ':' !in s[..k]
    ensures Find(s, ':') == k
  {
  }

  /** The epoch decides before anything else. */
  lemma EpochDecides(pep: Pep440, a: string, d: string, s: string, b: string, e: string, t: string)
    requires IsNumber(d) && IsNumber(e) && ParseNat(d) != ParseNat(e)
    requires a == d + (":" + s) && b == e + (":" + t)
    requires IsStripped(a) && IsStripped(b) && ByRpm(pep, a, b)
    ensures CompareVersions(pep, a, b) == if ParseNat(d) < ParseNat(e) then -1 else 1
  {
    EpochIs(d, s);
    EpochIs(e, t);
    RpmByEpoch(a, b);
    CompareIsRpm(pep, a, b);
  }

  lemma CompareIsRpm(pep: Pep440, a: string, b: string)
    requires IsStripped(a) && IsStripped(b) && ByRpm(pep, a, b)
    ensures CompareVersions(pep, a, b) == RpmCompare(a, b)
  {
    assert Strip(a) == a && Strip(b) == b;
  }

  lemma RpmByEpoch(a: string, b: string)
    ensures RpmCompare(a, b) ==
            if SplitEpoch(a).0 < SplitEpoch(b).0 then -1 else if SplitEpoch(a).0 > SplitEpoch(b).0 then 1
            else CompareSegments(Segments(SplitEpoch(a).1), Segments(SplitEpoch(b).1))
  {
  }

  /** A missing epoch is older than every positive one. */
  lemma NoEpochIsZero(pep: Pep440, d: string, s: string, t: string)
    requires IsNumber(d) && ParseNat(d) > 0 && ':' !in t
    requires IsStripped(d + (":" + s)) && IsStripped(t) && ByRpm(pep, d + (":" + s), t)
    ensures CompareVersions(pep, t, d + (":" + s)) == -1
  {
    EpochIs(d, s);
    ZeroEpoch(t);
    RpmByEpoch(t, d + (":" + s));
    CompareIsRpm(pep, t, d + (":" + s));
  }

  lemma ZeroEpoch(t: string)
    requires ':' !in t
    ensures SplitEpoch(t).0 == 0
  {
  }

  /** Under equal epochs the remainders are compared. */
  lemma EqualEpochsGoOn(pep: Pep440, d: string, s: string, e: string, t: string)
    requires IsNumber(d) && IsNumber(e) && ParseNat(d) == ParseNat(e) && IsBare(s) && IsBare(t)
    requires IsStripped(d + (":" + s)) && IsStripped(e + (":" + t)) && ByRpm(pep, d + (":" + s), e + (":" + t))
    ensures CompareVersions(pep, d + (":" + s), e + (":" + t)) == CompareSegments(Segments(s), Segments(t))
  {
    EpochIs(d, s);
    EpochIs(e, t);
    RpmByEpoch(d + (":" + s), e + (":" + t));
    CompareIsRpm(pep, d + (":" + s), e + (":" + t));
  }

  /** Two PEP 440 versions are ordered by their keys. */
  lemma KeysDecide(pep: Pep440, a: string, b: string)
    requires IsStripped(a) && IsStripped(b) && pep(a).Some? && pep(b).Some?
    ensures CompareVersions(pep, a, b) ==
            if pep(a).value < pep(b).value then -1 else if pep(a).value > pep(b).value then 1 else 0
  {
    CompareIsPep(pep, a, b);
  }

  lemma CompareIsPep(pep: Pep440, a: string, b: string)
    requires IsStripped(a) && IsStripped(b) && pep(a).Some? && pep(b).Some?
    ensures CompareVersions(pep, a, b) == PepCompare(pep(a).value, pep(b).value)
  {
    assert Strip(a) == a && Strip(b) == b;
  }

  // ----- is_comparable -----

  /** A match of `^(\d+:)?[vV]?\d[A-Za-z0-9.+~_:-]*$`, part by part. */
  predicate Matches(s: string, epoch: string, v: string, digit: string, tail: string) {
    && s == epoch + (v + (digit + tail))
    && (epoch == [] || (|epoch| > 1 && epoch[|epoch| - 1] == ':' && AllDigits(epoch[..|epoch| - 1])))
    && v in {"", "v", "V"} && |digit| == 1 && IsDigit(digit[0])
    && forall c :: c in tail ==> IsLetter(c) || IsDigit(c) || c in {'.', '+', '~', '_', ':', '-'}
  }

  predicate CoreMatches(s: string, v: string, digit: string, tail: string) {
    && s == v + (digit + tail) && v in {"", "v", "V"} && |digit| == 1 && IsDigit(digit[0])
    && forall c :: c in tail ==> IsLetter(c) || IsDigit(c) || c in {'.', '+', '~', '_', ':', '-'}
  }

  lemma CoreIff(s: string)
    ensures PackageCore(s) <==> exists v, digit, tail :: CoreMatches(s, v, digit, tail)
  {
    if PackageCore(s) {
      var v, digit, tail := MatchOfCore(s);
    }
    if v, digit, tail :| CoreMatches(s, v, digit, tail) {
      CoreFromMatch(s, v, digit, tail);
    }
  }

  lemma MatchOfCore(s: string) returns (v: string, digit: string, tail: string)
    requires PackageCore(s)
    ensures CoreMatches(s, v, digit, tail)
  {
    var dropped := s[0] in {'v', 'V'};
    var rest := if dropped then s[1..] else s;
    v, digit, tail := if dropped then [s[0]] else "", rest[..1], rest[1..];
    assert s == v + rest && rest == digit + tail && digit[0] == rest[0];
    assert dropped ==> v == "v" || v == "V";
    forall c | c in tail ensures PackageTailChar(c) {
      assert c in rest;
    }
    assert v in {"", "v", "V"} && IsDigit(digit[0]) && |digit| == 1;
    assert s == v + (digit + tail);
  }

  lemma CoreFromMatch(s: string, v: string, digit: string, tail: string)
    requires CoreMatches(s, v, digit, tail)
    ensures PackageCore(s)
  {
    var rest := digit + tail;
    assert rest[0] == digit[0] && forall c :: c in rest ==> c == digit[0] || c in tail;
    if v == "" {
      assert s == rest;
    } else {
      assert s[0] == v[0] && s[1..] == rest;
    }
  }

  /** The package shape is exactly the regular expression. */
  lemma LooksLikePackageIff(s: string)
    ensures LooksLikePackage(s) <==> exists epoch, v, digit, tail :: Matches(s, epoch, v, digit, tail)
  {
    if LooksLikePackage(s) {
      var epoch, v, digit, tail := MatchOfPackage(s);
    }
    if epoch, v, digit, tail :| Matches(s, epoch, v, digit, tail) {
      PackageFromMatch(s, epoch, v, digit, tail);
    }
  }

  lemma MatchOfPackage(s: string) returns (epoch: string, v: string, digit: string, tail: string)
    requires LooksLikePackage(s)
    ensures Matches(s, epoch, v, digit, tail)
  {
    var colon := Find(s, ':');
    if PackageCore(s) {
      epoch := "";
      v, digit, tail := MatchOfCore(s);
      assert "" + (v + (digit + tail)) == s;
    } else {
      epoch := s[..colon + 1];
      v, digit, tail := MatchOfCore(s[colon + 1..]);
      assert epoch[..colon] == s[..colon] && s == epoch + s[colon + 1..];
    }
  }

  lemma PackageFromMatch(s: string, epoch: string, v: string, digit: string, tail: string)
    requires Matches(s, epoch, v, digit, tail)
    ensures LooksLikePackage(s)
  {
    var rest := v + (digit + tail);
    assert CoreMatches(rest, v, digit, tail);
    CoreFromMatch(rest, v, digit, tail);
    if epoch == [] {
      assert s == rest;
    } else {
      var k := |epoch| - 1;
      assert s[..k] == epoch[..k] && s[k] == ':' && s[k + 1..] == rest;
      assert ':' !in epoch[..k];
      FirstColon(s, k);
    }
  }

  /** A candidate is comparable iff, trimmed, it is PEP 440 or has the package shape. */
  lemma ComparableIff(pep: Pep440, s: string)
    requires s != [] && IsStripped(s)
    ensures IsComparable(pep, s) <==>
            pep(s).Some? || exists epoch, v, digit, tail :: Matches(s, epoch, v, digit, tail)
  {
    LooksLikePackageIff(s);
  }
}
