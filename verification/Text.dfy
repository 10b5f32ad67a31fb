/** The string operations of Python and Go the services rely on, on ASCII text. */
module Text {

  /** The ASCII characters `str.strip()` removes. */
  predicate IsSpace(c: char) {
    c == ' ' || '\t' <= c <= '\r' || 0x1c as char <= c <= 0x1f as char
  }

  function StripLeft(s: string): (r: string)
    ensures |r| <= |s| && r == s[|s| - |r|..]
    ensures r != [] ==> !IsSpace(r[0])
  {
    if s != [] && IsSpace(s[0]) then StripLeft(s[1..]) else s
  }

  function StripRight(s: string): (r: string)
    ensures |r| <= |s| && r == s[..|r|]
    ensures r != [] ==> !IsSpace(r[|r| - 1])
  {
    if s != [] && IsSpace(s[|s| - 1]) then StripRight(s[..|s| - 1]) else s
  }

  /** `s.strip()` */
  function Strip(s: string): (r: string)
    ensures IsStripped(r)
    ensures IsStripped(s) ==> r == s
  {
    StripRight(StripLeft(s))
  }

  lemma StripMembers(s: string, c: char)
    requires c in Strip(s)
    ensures c in s
  {
  }

  /** `t` is `s` without spaces at both ends, and all other characters. */
  ghost predicate IsTrimOf(t: string, s: string) {
    IsStripped(t) && exists a, b :: IsBlank(a) && IsBlank(b) && s == a + t + b
  }

  predicate IsBlank(s: string) {
    forall c :: c in s ==> c as int in {9, 10, 11, 12, 13, 28, 29, 30, 31, 32}
  }

  lemma SpaceIff(c: char)
    ensures IsSpace(c) <==> IsBlank([c])
  {
    assert c in [c];
  }

  lemma {:induction false} StripLeftIs(s: string) returns (a: string)
    ensures IsBlank(a) && s == a + StripLeft(s)
  {
    if s != [] && IsSpace(s[0]) {
      var b := StripLeftIs(s[1..]);
      SpaceIff(s[0]);
      a := [s[0]] + b;
      BlankFirst(s, b, StripLeft(s[1..]));
    } else {
      a := [];
    }
  }

  lemma BlankFirst(s: string, b: string, t: string)
    requires s != [] && IsBlank([s[0]]) && IsBlank(b) && s[1..] == b + t
    ensures IsBlank([s[0]] + b) && s == [s[0]] + b + t
  {
    assert s[0] in [s[0]];
    assert s == [s[0]] + s[1..];
  }

  lemma BlankEnd(s: string, t: string, b: string, c: char)
    requires s == t + b && IsBlank(b) && IsBlank([c])
    ensures s + [c] == t + (b + [c]) && IsBlank(b + [c])
  {
    assert c in [c];
  }

  lemma {:induction false} StripRightIs(s: string) returns (b: string)
    ensures IsBlank(b) && s == StripRight(s) + b
  {
    var n := |s| - 1;
    if s != [] && IsSpace(s[n]) {
      var a := StripRightIs(s[..n]);
      SpaceIff(s[n]);
      b := a + [s[n]];
      BlankEnd(s[..n], StripRight(s), a, s[n]);
      assert s == s[..n] + [s[n]];
    } else {
      b := [];
    }
  }

  /** Stripping drops spaces at both ends and nothing else. */
  lemma StripIsTrim(s: string)
    ensures IsTrimOf(Strip(s), s)
  {
    var a := StripLeftIs(s);
    var b := StripRightIs(StripLeft(s));
    TrimOf(s, a, StripLeft(s), Strip(s), b);
  }

  lemma TrimOf(s: string, a: string, middle: string, t: string, b: string)
    requires IsBlank(a) && IsBlank(b) && s == a + middle && middle == t + b && IsStripped(t)
    ensures IsTrimOf(t, s)
  {
    assert s == a + t + b;
  }

  predicate IsStripped(s: string) {
    s != [] ==> !IsSpace(s[0]) && !IsSpace(s[|s| - 1])
  }

  function LowerChar(c: char): char {
    if 'A' <= c <= 'Z' then (c as int + 32) as char else c
  }

  /** `s.lower()`, character by character. */
  function Lower(s: string): (r: string)
    ensures |r| == |s| && forall i :: 0 <= i < |s| ==> r[i] == LowerChar(s[i])
  {
    seq(|s|, i requires 0 <= i < |s| => LowerChar(s[i]))
  }

  /** Only capital letters change, each to its small letter. */
  lemma LowerCharIs(c: char)
    ensures 'A' <= c <= 'Z' ==> 'a' <= LowerChar(c) <= 'z' && LowerChar(c) as int - 'a' as int == c as int - 'A' as int
    ensures !('A' <= c <= 'Z') ==> LowerChar(c) == c
  {
  }

  predicate IsDigit(c: char) {
    '0' <= c <= '9'
  }

  predicate AllDigits(s: string) {
    forall c :: c in s ==> IsDigit(c)
  }

  /** `int(s)` */
  function ParseNat(s: string): nat
    requires AllDigits(s)
  {
    if s == [] then 0
    else
      assert s[|s| - 1] in s;
      10 * ParseNat(s[..|s| - 1]) + (s[|s| - 1] as int - '0' as int)
  }

  predicate IsLetter(c: char) {
    'a' <= c <= 'z' || 'A' <= c <= 'Z'
  }

  /** The position of the first `c`, or the length of `s` when there is none. */
  function Find(s: string, c: char): (i: nat)
    ensures i <= |s| && c !in s[..i] && (i < |s| ==> s[i] == c)
  {
    if s == [] || s[0] == c then 0 else 1 + Find(s[1..], c)
  }

  /** `s.split(sep)` for a one-character separator: always at least one part. */
  function Split(s: string, sep: char): (parts: seq<string>)
    ensures |parts| >= 1
  {
    if s == [] then [[]]
    else if s[0] == sep then [[]] + Split(s[1..], sep)
    else
      var rest := Split(s[1..], sep);
      [[s[0]] + rest[0]] + rest[1..]
  }

  lemma {:induction false} SplitParts(s: string, sep: char)
    ensures forall p :: p in Split(s, sep) ==> sep !in p
  {
    if s != [] { SplitParts(s[1..], sep); }
  }

  /** `sep.join(parts)` for a one-character separator. */
  function Join(parts: seq<string>, sep: char): string {
    if |parts| == 0 then []
    else if |parts| == 1 then parts[0]
    else parts[0] + [sep] + Join(parts[1..], sep)
  }

  /** Joining the parts gives the text back. */
  lemma {:induction false} JoinSplit(s: string, sep: char)
    ensures Join(Split(s, sep), sep) == s
  {
    if s != [] {
      JoinSplit(s[1..], sep);
      var rest := Split(s[1..], sep);
      if s[0] == sep {
        assert ([[]] + rest)[1..] == rest;
      } else {
        var parts := Split(s, sep);
        assert parts[0] == [s[0]] + rest[0] && parts[1..] == rest[1..];
        assert Join(parts, sep) == [s[0]] + Join(rest, sep);
      }
    }
  }

  /** A part without the separator is split off whole. */
  lemma {:induction false} SplitCons(head: string, tail: string, sep: char)
    requires sep !in head
    ensures Split(head + [sep] + tail, sep) == [head] + Split(tail, sep)
    decreases |head|
  {
    var s := head + [sep] + tail;
    if head == [] {
      assert s[1..] == tail;
    } else {
      assert s[1..] == head[1..] + [sep] + tail;
      SplitCons(head[1..], tail, sep);
      assert [s[0]] + head[1..] == head;
    }
  }

  lemma {:induction false} SplitWhole(s: string, sep: char)
    requires sep !in s
    ensures Split(s, sep) == [s]
  {
    if s != [] {
      SplitWhole(s[1..], sep);
      assert [s[0]] + s[1..] == s;
    }
  }

  /** Splitting undoes joining when no part contains the separator. */
  lemma {:induction false} SplitJoin(parts: seq<string>, sep: char)
    requires |parts| >= 1
    requires forall p :: p in parts ==> sep !in p
    ensures Split(Join(parts, sep), sep) == parts
  {
    if |parts| == 1 {
      SplitWhole(parts[0], sep);
    } else {
      SplitJoin(parts[1..], sep);
      SplitCons(parts[0], Join(parts[1..], sep), sep);
    }
  }
}
