/** The counts and maxima of a roll-up item, told on its component's rows
    (services/fix_rollup_service.py). */
module RollupLaws {
  import opened Ordering
  import opened Versions
  import opened FixRollup

  /** Row `i` is the current one of its CVE for the component: visible, and not replaced. */
  predicate CurrentAt(visible: map<string, VisibleCve>, rows: seq<ComponentRow>, component: Component, i: int) {
    && 0 <= i < |rows| && rows[i].component == component && rows[i].cveId in visible
    && forall j :: i < j < |rows| ==> !(rows[j].component == component && rows[j].cveId == rows[i].cveId)
  }

  /** The CVEs of the component whose current row has the property. */
  ghost function CvesWhere(
    visible: map<string, VisibleCve>, rows: seq<ComponentRow>, component: Component, p: ComponentRow -> bool)
    : set<string>
  {
    set i | 0 <= i < |rows| && CurrentAt(visible, rows, component, i) && p(rows[i]) :: rows[i].cveId
  }

  lemma CurrentIff(visible: map<string, VisibleCve>, rows: seq<ComponentRow>, i: nat)
    requires i < |rows|
    ensures CurrentAt(visible, rows, rows[i].component, i) <==> IsCurrent(visible, rows[i], rows[i + 1..])
  {
    var after := rows[i + 1..];
    assert forall j :: i < j < |rows| ==> rows[j] == after[j - i - 1];
    if CurrentAt(visible, rows, rows[i].component, i) {
      forall r | r in after ensures !IsFor(r, rows[i].component, rows[i].cveId) {
        var k :| 0 <= k < |after| && after[k] == r;
        assert rows[i + 1 + k] == r;
      }
    }
    if IsCurrent(visible, rows[i], after) {
      forall j | i < j < |rows| ensures !(rows[j].component == rows[i].component && rows[j].cveId == rows[i].cveId) {
        assert rows[j] in after;
      }
    }
  }

  /** The entry a current row leaves: its own fixability and ranked fix versions, and what the
      list knows of the CVE. */
  predicate Reflects(pep: Pep440, visible: map<string, VisibleCve>, row: ComponentRow, c: RollupCve) {
    && row.cveId in visible && c.cveId == row.cveId && c.info == visible[row.cveId] && c.fixable == row.fixable
    && c.fixedBy == RankVersions(pep, row.fixedBy).best && c.candidates == RankVersions(pep, row.fixedBy).ordered
  }

  /** Current rows and entries of an item correspond. */
  lemma EntriesReflectRows(pep: Pep440, visible: map<string, VisibleCve>, rows: seq<ComponentRow>, k: nat)
    requires k < |Accumulate(pep, visible, rows)|
    ensures var acc := Accumulate(pep, visible, rows)[k];
      && (forall i ::
          CurrentAt(visible, rows, acc.component, i) ==>
            exists c :: c in acc.cves && Reflects(pep, visible, rows[i], c))
      && (forall c :: c in acc.cves ==>
            exists i :: CurrentAt(visible, rows, acc.component, i) && Reflects(pep, visible, rows[i], c))
  {
    var acc := Accumulate(pep, visible, rows)[k];
    forall i | CurrentAt(visible, rows, acc.component, i)
      ensures exists c :: c in acc.cves && Reflects(pep, visible, rows[i], c)
    {
      var c := EntryOfCurrent(pep, visible, rows, k, i);
    }
    forall c | c in acc.cves
      ensures exists i :: CurrentAt(visible, rows, acc.component, i) && Reflects(pep, visible, rows[i], c)
    {
      var i := CurrentOfEntry(pep, visible, rows, k, c);
    }
  }

  lemma EntryOfCurrent(pep: Pep440, visible: map<string, VisibleCve>, rows: seq<ComponentRow>, k: nat, i: int)
    returns (c: RollupCve)
    requires k < |Accumulate(pep, visible, rows)|
    requires CurrentAt(visible, rows, Accumulate(pep, visible, rows)[k].component, i)
    ensures c in Accumulate(pep, visible, rows)[k].cves && Reflects(pep, visible, rows[i], c)
  {
    CurrentIff(visible, rows, i);
    CurrentIsHeld(pep, visible, rows, k, i);
    c := CveOf(pep, rows[i], visible[rows[i].cveId]);
  }

  lemma CurrentOfEntry(pep: Pep440, visible: map<string, VisibleCve>, rows: seq<ComponentRow>, k: nat, c: RollupCve)
    returns (i: nat)
    requires k < |Accumulate(pep, visible, rows)| && c in Accumulate(pep, visible, rows)[k].cves
    ensures CurrentAt(visible, rows, Accumulate(pep, visible, rows)[k].component, i)
    ensures Reflects(pep, visible, rows[i], c)
  {
    i := CveComesFromRow(pep, visible, rows, k, c);
    CurrentIff(visible, rows, i);
  }

  // ----- counts -----

  ghost function IdsWhere(cves: seq<RollupCve>, keep: RollupCve -> bool): set<string> {
    set c | c in cves && keep(c) :: c.cveId
  }

  lemma IdsOfCons(c: RollupCve, rest: seq<RollupCve>, keep: RollupCve -> bool)
    requires UniqueCves([c] + rest)
    ensures UniqueCves(rest) && c.cveId !in IdsWhere(rest, keep)
    ensures IdsWhere([c] + rest, keep) == IdsWhere(rest, keep) + if keep(c) then {c.cveId} else {}
  {
    var both := [c] + rest;
    assert forall i :: 0 <= i < |rest| ==> both[i + 1] == rest[i];
    forall x | x in rest ensures x.cveId != c.cveId {
      var i :| 0 <= i < |rest| && rest[i] == x;
      assert both[0].cveId != both[i + 1].cveId;
    }
    assert forall x :: x in both <==> x == c || x in rest;
  }

  lemma {:induction false} FilterCounts(cves: seq<RollupCve>, keep: RollupCve -> bool)
    requires UniqueCves(cves)
    ensures |Filter(cves, keep)| == |IdsWhere(cves, keep)|
    decreases |cves|
  {
    if cves != [] {
      assert cves == [cves[0]] + cves[1..];
      IdsOfCons(cves[0], cves[1..], keep);
      FilterCounts(cves[1..], keep);
    }
  }

  lemma SortedUniqueCves(cves: seq<RollupCve>)
    requires UniqueCves(cves)
    ensures UniqueCves(Sort(cves, CveBefore))
    ensures forall c :: c in Sort(cves, CveBefore) <==> c in cves
  {
    SortPermutes(cves, CveBefore);
    var s := Sort(cves, CveBefore);
    assert Distinct(cves);
    PermutationDistinct(cves, s);
    forall i, j | 0 <= i < j < |s| ensures s[i].cveId != s[j].cveId {
      assert s[i] in cves && s[j] in cves && s[i] != s[j];
    }
  }

  /** The entries with a property that their rows show are counted by CVE. */
  lemma CountIs(pep: Pep440, visible: map<string, VisibleCve>, rows: seq<ComponentRow>, k: nat,
                keep: RollupCve -> bool, p: ComponentRow -> bool)
    requires k < |Accumulate(pep, visible, rows)|
    requires forall c, row :: Reflects(pep, visible, row, c) ==> keep(c) == p(row)
    ensures var acc := Accumulate(pep, visible, rows)[k];
      |Filter(Sort(acc.cves, CveBefore), keep)| == |CvesWhere(visible, rows, acc.component, p)|
  {
    var acc := Accumulate(pep, visible, rows)[k];
    ItemCvesUnique(pep, visible, rows, acc);
    SortedUniqueCves(acc.cves);
    FilterCounts(Sort(acc.cves, CveBefore), keep);
    SameCves(pep, visible, rows, k, keep, p);
  }

  lemma SameCves(pep: Pep440, visible: map<string, VisibleCve>, rows: seq<ComponentRow>, k: nat,
                 keep: RollupCve -> bool, p: ComponentRow -> bool)
    requires k < |Accumulate(pep, visible, rows)|
    requires forall c, row :: Reflects(pep, visible, row, c) ==> keep(c) == p(row)
    requires var cves := Accumulate(pep, visible, rows)[k].cves;
      forall c :: c in Sort(cves, CveBefore) <==> c in cves
    ensures var acc := Accumulate(pep, visible, rows)[k];
      IdsWhere(Sort(acc.cves, CveBefore), keep) == CvesWhere(visible, rows, acc.component, p)
  {
    var acc := Accumulate(pep, visible, rows)[k];
    var ids := IdsWhere(Sort(acc.cves, CveBefore), keep);
    forall id | id in ids ensures id in CvesWhere(visible, rows, acc.component, p) {
      var c :| c in acc.cves && keep(c) && c.cveId == id;
      var i := CurrentOfEntry(pep, visible, rows, k, c);
    }
    forall id | id in CvesWhere(visible, rows, acc.component, p) ensures id in ids {
      var i :| CurrentAt(visible, rows, acc.component, i) && p(rows[i]) && rows[i].cveId == id;
      var c := EntryOfCurrent(pep, visible, rows, k, i);
      assert c in Sort(acc.cves, CveBefore);
    }
  }

  /** The counts of an item: its component's CVEs, those whose current row is fixable, and
      those the list calls prioritized or critical. */
  lemma ItemCounts(pep: Pep440, visible: map<string, VisibleCve>, rows: seq<ComponentRow>, k: nat)
    requires k < |Accumulate(pep, visible, rows)|
    ensures var item := ToItem(pep, Accumulate(pep, visible, rows)[k]);
      && item.component == Accumulate(pep, visible, rows)[k].component
      && item.totalCves == |CvesWhere(visible, rows, item.component, (r: ComponentRow) => true)|
      && item.fixableCves == |CvesWhere(visible, rows, item.component, (r: ComponentRow) => r.fixable)|
      && item.prioritizedCves ==
         |CvesWhere(visible, rows, item.component,
                    (r: ComponentRow) => r.cveId in visible && visible[r.cveId].hasPriority)|
      && item.criticalCves ==
         |CvesWhere(visible, rows, item.component,
                    (r: ComponentRow) => r.cveId in visible && visible[r.cveId].severity == 4)|
  {
    CountAll(pep, visible, rows, k);
    CountIs(pep, visible, rows, k, (c: RollupCve) => c.fixable, (r: ComponentRow) => r.fixable);
    CountIs(pep, visible, rows, k, (c: RollupCve) => c.info.hasPriority,
            (r: ComponentRow) => r.cveId in visible && visible[r.cveId].hasPriority);
    CountIs(pep, visible, rows, k, (c: RollupCve) => c.info.severity == CRITICAL,
            (r: ComponentRow) => r.cveId in visible && visible[r.cveId].severity == 4);
  }

  lemma {:induction false} KeepAll<T>(s: seq<T>)
    ensures Filter(s, (x: T) => true) == s
  {
    if s != [] {
      KeepAll(s[1..]);
    }
  }

  lemma CountAll(pep: Pep440, visible: map<string, VisibleCve>, rows: seq<ComponentRow>, k: nat)
    requires k < |Accumulate(pep, visible, rows)|
    ensures var acc := Accumulate(pep, visible, rows)[k];
      |Sort(acc.cves, CveBefore)| == |CvesWhere(visible, rows, acc.component, (r: ComponentRow) => true)|
  {
    var cves := Sort(Accumulate(pep, visible, rows)[k].cves, CveBefore);
    CountIs(pep, visible, rows, k, (c: RollupCve) => true, (r: ComponentRow) => true);
    KeepAll(cves);
  }

  // ----- maxima -----

  lemma ItemNotEmpty(pep: Pep440, visible: map<string, VisibleCve>, rows: seq<ComponentRow>, acc: Accumulator)
    requires acc in Accumulate(pep, visible, rows)
    ensures acc.cves != []
    decreases |rows|
  {
    var n := |rows| - 1;
    var before, row := Accumulate(pep, visible, rows[..n]), rows[n];
    forall a | a in before ensures a.cves != [] { ItemNotEmpty(pep, visible, rows[..n], a); }
    if row.cveId in visible {
      MergeNotEmpty(before, row.component, CveOf(pep, row, visible[row.cveId]), row.uses);
    }
  }

  lemma {:induction false} MergeNotEmpty(accs: seq<Accumulator>, component: Component, c: RollupCve, uses: Uses)
    requires forall a :: a in accs ==> a.cves != []
    ensures forall a :: a in Merge(accs, component, c, uses) ==> a.cves != []
  {
    if accs != [] && accs[0].component != component {
      MergeNotEmpty(accs[1..], component, c, uses);
    }
  }

  /** The greatest value over the component's current rows, of what the list knows. */
  ghost predicate IsMaximum(
    visible: map<string, VisibleCve>, rows: seq<ComponentRow>, component: Component, f: VisibleCve -> real, m: real)
  {
    && (exists i :: CurrentAt(visible, rows, component, i) && f(visible[rows[i].cveId]) == m)
    && forall i :: CurrentAt(visible, rows, component, i) ==> f(visible[rows[i].cveId]) <= m
  }

  lemma MaximumIs(pep: Pep440, visible: map<string, VisibleCve>, rows: seq<ComponentRow>, k: nat,
                  g: RollupCve -> real, f: VisibleCve -> real)
    requires k < |Accumulate(pep, visible, rows)| && Accumulate(pep, visible, rows)[k].cves != []
    requires Sort(Accumulate(pep, visible, rows)[k].cves, CveBefore) != []
    requires forall c: RollupCve :: g(c) == f(c.info)
    ensures var acc := Accumulate(pep, visible, rows)[k];
      IsMaximum(visible, rows, acc.component, f, MaxOf(Sort(acc.cves, CveBefore), g))
  {
    var acc := Accumulate(pep, visible, rows)[k];
    var cves := Sort(acc.cves, CveBefore);
    SortPermutes(acc.cves, CveBefore);
    var m := MaxOf(cves, g);
    var c :| c in cves && g(c) == m;
    var i := CurrentOfEntry(pep, visible, rows, k, c);
    assert f(visible[rows[i].cveId]) == m;
    forall j | CurrentAt(visible, rows, acc.component, j) ensures f(visible[rows[j].cveId]) <= m {
      var e := EntryOfCurrent(pep, visible, rows, k, j);
      assert e in cves && g(e) == f(e.info);
    }
  }

  /** The maxima of an item, each over its own field and attained by a reported CVE. */
  lemma ItemMaxima(pep: Pep440, visible: map<string, VisibleCve>, rows: seq<ComponentRow>, k: nat)
    requires k < |Accumulate(pep, visible, rows)|
    ensures var item := ToItem(pep, Accumulate(pep, visible, rows)[k]);
      && IsMaximum(visible, rows, item.component, (v: VisibleCve) => v.severity as real, item.maxSeverity as real)
      && IsMaximum(visible, rows, item.component, (v: VisibleCve) => v.cvss, item.maxCvss)
      && IsMaximum(visible, rows, item.component, (v: VisibleCve) => v.epss, item.maxEpss)
  {
    var acc := Accumulate(pep, visible, rows)[k];
    ItemNotEmpty(pep, visible, rows, acc);
    SortPermutes(acc.cves, CveBefore);
    MaximumIs(pep, visible, rows, k, (c: RollupCve) => c.info.cvss, (v: VisibleCve) => v.cvss);
    MaximumIs(pep, visible, rows, k, (c: RollupCve) => c.info.epss, (v: VisibleCve) => v.epss);
    MaximumIs(pep, visible, rows, k, (c: RollupCve) => c.info.severity as real, (v: VisibleCve) => v.severity as real);
    SeverityIsWhole(Sort(acc.cves, CveBefore));
  }

  lemma SeverityIsWhole(cves: seq<RollupCve>)
    requires cves != []
    ensures var m := MaxOf(cves, (c: RollupCve) => c.info.severity as real); m.Floor as real == m
  {
  }

  // ----- the order of the list -----

  /** The number a sort key names. */
  function NumberOf(key: SortKey, item: Item): real
    requires !key.ComponentName?
  {
    match key
    case FixableCves => item.fixableCves as real
    case TotalCves => item.totalCves as real
    case MaxEpss => item.maxEpss
    case MaxCvss => item.maxCvss
    case AffectedImages => |item.images| as real
    case AffectedDeployments => item.affectedDeployments as real
  }

  /** Listed items: those with prioritized CVEs first; among these, and among the others, by
      the number or the name asked for; under a tie the likelier exploited first, then by
      name and version. */
  lemma ItemsAreListed(items: seq<Item>, key: SortKey, desc: bool, i: nat, j: nat)
    requires forall x :: x in items ==> x.affectedImages == |x.images|
    requires i < j < |SortItems(items, key, desc)|
    ensures var x, y := SortItems(items, key, desc)[i], SortItems(items, key, desc)[j];
      && (x.prioritizedCves == 0 ==> y.prioritizedCves == 0)
      && ((x.prioritizedCves == 0) == (y.prioritizedCves == 0) ==>
            if key.ComponentName? then
              && (if desc then StrLe(y.component.name, x.component.name) else StrLe(x.component.name, y.component.name))
              && (x.component.name == y.component.name ==> TieOrder(x, y))
            else
              && (if desc then NumberOf(key, x) >= NumberOf(key, y) else NumberOf(key, x) <= NumberOf(key, y))
              && (NumberOf(key, x) == NumberOf(key, y) ==> TieOrder(x, y)))
  {
    var sorted := SortItems(items, key, desc);
    SortItemsShown(items, key, desc, i, j);
    SortItemsPermutes(items, key, desc);
    SortedFromItems(items, sorted, i);
    SortedFromItems(items, sorted, j);
    StrLeOrder();
  }

  lemma SortedFromItems(items: seq<Item>, sorted: seq<Item>, i: nat)
    requires multiset(sorted) == multiset(items) && i < |sorted|
    ensures sorted[i] in items
  {
    assert sorted[i] in multiset(sorted);
  }

  predicate TieOrder(x: Item, y: Item) {
    && x.maxEpss >= y.maxEpss
    && (x.maxEpss == y.maxEpss ==>
          if x.component.name != y.component.name then StrLe(x.component.name, y.component.name)
          else StrLe(x.component.version, y.component.version))
  }
}
