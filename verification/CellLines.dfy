/** Excel cells (exports/excel_generator.py, `_cell_lines`): values one per line, cut off
    with a count of what was omitted. */
module CellLines {
  import opened Text

  const MAX_CELL_CHARS := 32_767
  const MAX_CELL_LINES := 250

  function Digits(n: nat): (s: string)
    ensures s != [] && AllDigits(s)
  {
    var digit := [('0' as int + n % 10) as char];
    if n < 10 then digit else Digits(n / 10) + digit
  }

  /** The digits spell the number. */
  lemma {:induction false} DigitsSpell(n: nat)
    ensures ParseNat(Digits(n)) == n
  {
    var s := Digits(n);
    if n >= 10 {
      DigitsSpell(n / 10);
      assert s[..|s| - 1] == Digits(n / 10);
    } else {
      assert s[..|s| - 1] == [];
    }
  }

  /** A smaller number never needs more digits. */
  lemma {:induction false} DigitsMonotone(m: nat, n: nat)
    requires m <= n
    ensures |Digits(m)| <= |Digits(n)|
  {
    if m >= 10 {
      DigitsMonotone(m / 10, n / 10);
    }
  }

  /** A label such as "... and {n} more" around the number. */
  datatype Label = Label(before: string, after: string)

  function Format(more: Label, n: nat): string {
    more.before + Digits(n) + more.after
  }

  /** `"\n".join(values)` */
  function JoinLines(values: seq<string>): string {
    if values == [] then []
    else if |values| == 1 then values[0]
    else values[0] + ['\n'] + JoinLines(values[1..])
  }

  /** The characters `values` take with a line feed after each. */
  function Cost(values: seq<string>): nat {
    if values == [] then 0 else Cost(values[..|values| - 1]) + |values[|values| - 1]| + 1
  }

  function LineFeeds(s: string): nat {
    if s == [] then 0 else (if s[0] == '\n' then 1 else 0) + LineFeeds(s[1..])
  }

  lemma {:induction false} LineFeedsConcat(s: string, t: string)
    ensures LineFeeds(s + t) == LineFeeds(s) + LineFeeds(t)
  {
    if s == [] {
      assert s + t == t;
    } else {
      assert (s + t)[1..] == s[1..] + t;
      LineFeedsConcat(s[1..], t);
    }
  }

  lemma {:induction false} NoLineFeeds(s: string)
    requires '\n' !in s
    ensures LineFeeds(s) == 0
  {
    if s != [] { NoLineFeeds(s[1..]); }
  }

  lemma {:induction false} CostCons(v: string, rest: seq<string>)
    ensures Cost([v] + rest) == |v| + 1 + Cost(rest)
  {
    if rest == [] {
      assert ([v] + rest)[..0] == [] && Cost([]) == 0;
    } else {
      var n := |rest| - 1;
      assert ([v] + rest)[..n + 1] == [v] + rest[..n];
      CostCons(v, rest[..n]);
    }
  }

  lemma {:induction false} JoinLength(values: seq<string>)
    requires values != []
    ensures |JoinLines(values)| + 1 == Cost(values)
  {
    assert values == [values[0]] + values[1..];
    CostCons(values[0], values[1..]);
    if |values| > 1 {
      JoinLength(values[1..]);
    } else {
      assert Cost(values[1..]) == 0;
    }
  }

  /** Splitting a cell into lines gives the values back. */
  lemma {:induction false} LinesAreValues(values: seq<string>)
    requires values != [] && forall v :: v in values ==> '\n' !in v
    ensures Split(JoinLines(values), '\n') == values
  {
    JoinIsJoin(values);
    SplitJoin(values, '\n');
  }

  lemma {:induction false} JoinIsJoin(values: seq<string>)
    ensures JoinLines(values) == Join(values, '\n')
  {
    if |values| > 1 {
      JoinIsJoin(values[1..]);
    }
  }

  /** Length and line count of joined lines. */
  lemma {:induction false} JoinSize(values: seq<string>)
    requires values != [] && forall v :: v in values ==> '\n' !in v
    ensures |JoinLines(values)| + 1 == Cost(values)
    ensures LineFeeds(JoinLines(values)) == |values| - 1
  {
    assert values == [values[0]] + values[1..];
    CostCons(values[0], values[1..]);
    NoLineFeeds(values[0]);
    if |values| > 1 {
      JoinSize(values[1..]);
      LineFeedsConcat(values[0] + ['\n'], JoinLines(values[1..]));
      LineFeedsConcat(values[0], ['\n']);
      assert LineFeeds(['\n']) == 1 by { assert ['\n'][1..] == []; }
    }
  }

  predicate FitsWhole(values: seq<string>) {
    |values| <= MAX_CELL_LINES && |JoinLines(values)| <= MAX_CELL_CHARS
  }

  /** `k` values fit in front of a label reserved for all of them. */
  predicate FitsWithLabel(values: seq<string>, more: Label, k: nat)
    requires k <= |values|
  {
    k <= MAX_CELL_LINES - 1 && Cost(values[..k]) + |Format(more, |values|)| <= MAX_CELL_CHARS
  }

  lemma {:induction false} CostMonotone(values: seq<string>, i: nat, j: nat)
    requires i <= j <= |values|
    ensures Cost(values[..i]) <= Cost(values[..j])
    decreases j
  {
    if i < j {
      CostMonotone(values, i, j - 1);
      assert values[..j][..j - 1] == values[..j - 1];
    }
  }

  /** No line feed inside a value or the label, and a label that fits by itself. */
  predicate OneLineEach(values: seq<string>, more: Label) {
    && (forall v :: v in values ==> '\n' !in v)
    && '\n' !in more.before && '\n' !in more.after && |Format(more, |values|)| <= MAX_CELL_CHARS
  }

  /** `_cell_lines`. The cell is either everything, or the longest prefix that leaves room for
      the label (nothing if not even the label fits), with the exact number of omitted values.
      For values without line feeds and a label that fits, it stays within both limits. */
  method FillCell(values: seq<string>, more: Label) returns (cell: string, kept: nat)
    ensures if FitsWhole(values) then kept == |values| && cell == JoinLines(values)
            else
              && kept < |values|
              && cell == JoinLines(values[..kept] + [more.before + Digits(|values| - kept) + more.after])
    ensures !FitsWhole(values) ==> kept == 0 || FitsWithLabel(values, more, kept)
    ensures !FitsWhole(values) ==> forall k :: kept < k <= |values| ==> !FitsWithLabel(values, more, k)
    ensures OneLineEach(values, more) ==> |cell| <= 32_767 && LineFeeds(cell) + 1 <= 250
  {
    if FitsWhole(values) {
      if values != [] && OneLineEach(values, more) { JoinSize(values); }
      return JoinLines(values), |values|;
    }
    var reserve := |Format(more, |values|)|;
    var used := 0;
    kept := 0;
    assert values[..0] == [];
    while kept < |values| && kept < MAX_CELL_LINES - 1
      invariant 0 <= kept <= |values| && kept <= MAX_CELL_LINES - 1
      invariant used == Cost(values[..kept]) && (kept > 0 ==> used + reserve <= MAX_CELL_CHARS)
    {
      var cost := |values[kept]| + 1;
      assert values[..kept + 1][..kept] == values[..kept];
      if used + cost + reserve > MAX_CELL_CHARS {
        break;
      }
      used := used + cost;
      kept := kept + 1;
    }
    if kept == |values| {
      TooLongToKeepAll(values);
    }
    assert kept < |values|;
    forall k | kept < k <= |values| ensures !FitsWithLabel(values, more, k) {
      CostMonotone(values, kept + 1, k);
      assert values[..kept + 1][..kept] == values[..kept];
    }
    cell := JoinLines(values[..kept] + [Format(more, |values| - kept)]);
    if OneLineEach(values, more) {
      assert values[..0] == [];
      LabelledSize(values, more, kept);
    }
  }

  /** Values that do not fit whole are too long together, if not too many. */
  lemma TooLongToKeepAll(values: seq<string>)
    requires !FitsWhole(values)
    ensures |values| > MAX_CELL_LINES || Cost(values) > MAX_CELL_CHARS
    ensures values[..|values|] == values
  {
    if values != [] { JoinLength(values); }
  }

  /** The limits on the cell as it would read: whole, or the first `k` values and the label with
      the full count. */
  lemma LimitsAre(values: seq<string>, more: Label, k: nat)
    requires k <= |values|
    ensures FitsWhole(values) <==> |values| <= 250 && |Join(values, '\n')| <= 32_767
    ensures FitsWithLabel(values, more, k) <==>
            k <= 249 && |Join(values[..k] + [more.before + Digits(|values|) + more.after], '\n')| <= 32_767
  {
    var lines := values[..k] + [Format(more, |values|)];
    JoinIsJoin(values);
    JoinIsJoin(lines);
    JoinLength(lines);
    assert lines[..k] == values[..k];
  }

  /** The label reserved for the full count also has room for the smaller real one. */
  lemma LabelledSize(values: seq<string>, more: Label, kept: nat)
    requires forall v :: v in values ==> '\n' !in v
    requires '\n' !in more.before && '\n' !in more.after
    requires kept < |values| && FitsWithLabel(values, more, kept)
    ensures var cell := JoinLines(values[..kept] + [Format(more, |values| - kept)]);
      |cell| <= MAX_CELL_CHARS && LineFeeds(cell) + 1 <= MAX_CELL_LINES
  {
    var lines := values[..kept] + [Format(more, |values| - kept)];
    DigitsMonotone(|values| - kept, |values|);
    JoinSize(lines);
    assert lines[..kept] == values[..kept];
  }
}
