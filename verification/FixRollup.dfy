/** Component fix roll-up (services/fix_rollup_service.py): one row per component and
    CVE is merged into one item per component with a single upgrade target. */
module FixRollup {
  import opened Wrappers
  import opened Text
  import opened Ordering
  import opened Versions
  import opened Highest
  import opened Targets

  datatype Component = Component(name: string, version: string, os: string)

  datatype Image = Image(id: string, name: string)

  /** Where a component is found: images by first mention, deployments, namespaces. */
  datatype Uses = Uses(images: seq<Image>, deployments: set<string>, namespaces: seq<string>)

  const NOWHERE := Uses([], {}, [])

  datatype ComponentRow = ComponentRow(
    component: Component, cveId: string, fixedBy: seq<Option<string>>, fixable: bool, uses: Uses)

  /** What the CVE list knows about a visible CVE. */
  datatype VisibleCve = VisibleCve(severity: int, cvss: real, epss: real, hasPriority: bool)

  datatype RollupCve = RollupCve(
    cveId: string, info: VisibleCve, fixable: bool, fixedBy: Option<string>, candidates: seq<string>)

  /** Dictionaries keep insertion order, so they are lists with unique keys here. */
  datatype Accumulator = Accumulator(component: Component, cves: seq<RollupCve>, uses: Uses)

  const CRITICAL := 4

  datatype Item = Item(
    component: Component, target: Option<string>, fixVersions: seq<string>, uncertain: bool,
    totalCves: nat, fixableCves: nat, prioritizedCves: nat, criticalCves: nat,
    maxSeverity: int, maxCvss: real, maxEpss: real, affectedImages: nat, affectedDeployments: nat,
    namespaces: seq<string>, images: seq<Image>, cves: seq<RollupCve>)

  // ----- accumulation -----

  function PutCve(cves: seq<RollupCve>, c: RollupCve): seq<RollupCve> {
    if cves == [] then [c]
    else if cves[0].cveId == c.cveId then [c] + cves[1..]
    else [cves[0]] + PutCve(cves[1..], c)
  }

  predicate HasImage(images: seq<Image>, id: string) {
    exists i :: i in images && i.id == id
  }

  lemma HasImageLast(images: seq<Image>, last: Image)
    ensures forall id :: HasImage(images + [last], id) <==> HasImage(images, id) || last.id == id
  {
    forall id ensures HasImage(images + [last], id) <==> HasImage(images, id) || last.id == id {
      assert last in images + [last];
    }
  }

  predicate OneNamePerImage(images: seq<Image>) {
    forall i, j :: 0 <= i < j < |images| ==> images[i].id != images[j].id
  }

  /** `setdefault(image_id, image_name or image_id)` for each pair with an id. */
  function AddImages(kept: seq<Image>, pairs: seq<Image>): (r: seq<Image>)
    ensures kept <= r && (OneNamePerImage(kept) ==> OneNamePerImage(r))
    ensures forall id :: HasImage(r, id) <==> HasImage(kept, id) || (id != "" && HasImage(pairs, id))
  {
    if pairs == [] then kept
    else
      var n := |pairs| - 1;
      HasImageLast(pairs[..n], pairs[n]);
      assert pairs == pairs[..n] + [pairs[n]];
      var r := AddImages(kept, pairs[..n]);
      var p := pairs[n];
      if p.id == "" || HasImage(r, p.id) then r
      else
        var added := Image(p.id, if p.name != "" then p.name else p.id);
        HasImageLast(r, added);
        r + [added]
  }

  function AddNames(kept: seq<string>, more: seq<string>): (r: seq<string>)
    ensures Distinct(kept) ==> Distinct(r)
    ensures forall n :: n in r <==> n in kept || (n != "" && n in more)
  {
    if more == [] then kept
    else
      var n := |more| - 1;
      assert more == more[..n] + [more[n]];
      var r := AddNames(kept, more[..n]);
      if more[n] == "" || more[n] in r then r else r + [more[n]]
  }

  /** Empty ids and names are dropped. */
  function Both(a: Uses, b: Uses): Uses {
    Uses(AddImages(a.images, b.images), a.deployments + (b.deployments - {""}), AddNames(a.namespaces, b.namespaces))
  }

  function CveOf(pep: Pep440, row: ComponentRow, info: VisibleCve): RollupCve {
    var ranking := RankVersions(pep, row.fixedBy);
    RollupCve(row.cveId, info, row.fixable, ranking.best, ranking.ordered)
  }

  function Merge(accs: seq<Accumulator>, component: Component, c: RollupCve, uses: Uses): seq<Accumulator> {
    if accs == [] then [Accumulator(component, [c], Both(NOWHERE, uses))]
    else if accs[0].component == component then
      [Accumulator(component, PutCve(accs[0].cves, c), Both(accs[0].uses, uses))] + accs[1..]
    else [accs[0]] + Merge(accs[1..], component, c, uses)
  }

  function Step(
    pep: Pep440, visible: map<string, VisibleCve>, accs: seq<Accumulator>, row: ComponentRow): seq<Accumulator>
  {
    if row.cveId !in visible then accs
    else Merge(accs, row.component, CveOf(pep, row, visible[row.cveId]), row.uses)
  }

  function Accumulate(pep: Pep440, visible: map<string, VisibleCve>, rows: seq<ComponentRow>): seq<Accumulator> {
    if rows == [] then []
    else Step(pep, visible, Accumulate(pep, visible, rows[..|rows| - 1]), rows[|rows| - 1])
  }

  predicate CveBefore(x: RollupCve, y: RollupCve) {
    if x.info.hasPriority != y.info.hasPriority then x.info.hasPriority
    else if x.info.severity != y.info.severity then x.info.severity > y.info.severity
    else x.info.epss >= y.info.epss
  }

  function FixCandidates(cves: seq<RollupCve>): (r: seq<Option<string>>)
    ensures forall i :: 0 <= i < |r| ==> r[i].Some?
    ensures forall v :: Some(v) in r <==> exists c :: c in cves && c.fixable && v in c.candidates
  {
    if cves == [] then []
    else
      var listed := cves[0].candidates;
      var own := if cves[0].fixable then seq(|listed|, i requires 0 <= i < |listed| => Some(listed[i])) else [];
      assert forall v :: Some(v) in own <==> cves[0].fixable && v in cves[0].candidates by {
        forall v | v in cves[0].candidates && cves[0].fixable ensures Some(v) in own {
          var i :| 0 <= i < |cves[0].candidates| && cves[0].candidates[i] == v;
          assert own[i] == Some(v);
        }
      }
      assert cves == [cves[0]] + cves[1..];
      own + FixCandidates(cves[1..])
  }

  function MaxOf(cves: seq<RollupCve>, f: RollupCve -> real): (r: real)
    requires cves != []
    ensures exists c :: c in cves && f(c) == r
    ensures forall c :: c in cves ==> f(c) <= r
  {
    if |cves| == 1 then f(cves[0])
    else
      assert cves == [cves[0]] + cves[1..];
      var m := MaxOf(cves[1..], f);
      if f(cves[0]) > m then f(cves[0]) else m
  }

  predicate ImageNameLe(x: Image, y: Image) {
    StrLe(x.name, y.name)
  }

  /** `_to_item` */
  function ToItem(pep: Pep440, acc: Accumulator): Item {
    var cves := Sort(acc.cves, CveBefore);
    var ranking := RankVersions(pep, FixCandidates(cves));
    Item(acc.component, ranking.best, ranking.ordered, ranking.uncertain,
         |cves|,
         |Filter(cves, (c: RollupCve) => c.fixable)|,
         |Filter(cves, (c: RollupCve) => c.info.hasPriority)|,
         |Filter(cves, (c: RollupCve) => c.info.severity == CRITICAL)|,
         if cves == [] then 0 else MaxOf(cves, (c: RollupCve) => c.info.severity as real).Floor,
         if cves == [] then 0.0 else MaxOf(cves, (c: RollupCve) => c.info.cvss),
         if cves == [] then 0.0 else MaxOf(cves, (c: RollupCve) => c.info.epss),
         |acc.uses.images|, |acc.uses.deployments|,
         Sort(acc.uses.namespaces, StrLe), Sort(acc.uses.images, ImageNameLe), cves)
  }

  function ToItems(pep: Pep440, accs: seq<Accumulator>): seq<Item> {
    seq(|accs|, i requires 0 <= i < |accs| => ToItem(pep, accs[i]))
  }

  /** `aggregate_component_rows` */
  method AggregateComponentRows(pep: Pep440, rows: seq<ComponentRow>, visible: map<string, VisibleCve>)
    returns (items: seq<Item>)
    ensures items == ToItems(pep, Accumulate(pep, visible, rows))
  {
    var accs: seq<Accumulator> := [];
    for i := 0 to |rows|
      invariant accs == Accumulate(pep, visible, rows[..i])
    {
      assert rows[..i + 1][..i] == rows[..i];
      if rows[i].cveId in visible {
        accs := Merge(accs, rows[i].component, CveOf(pep, rows[i], visible[rows[i].cveId]), rows[i].uses);
      }
    }
    assert rows[..|rows|] == rows;
    items := ToItems(pep, accs);
  }

  // ----- what an item says about its rows -----

  /** The entry of a component, and within it the entry of a CVE. */
  function Lookup(accs: seq<Accumulator>, component: Component): Option<Accumulator> {
    if accs == [] then None
    else if accs[0].component == component then Some(accs[0])
    else Lookup(accs[1..], component)
  }

  function LookupCve(cves: seq<RollupCve>, cveId: string): (r: Option<RollupCve>)
    ensures r.Some? ==> r.value in cves && r.value.cveId == cveId
  {
    if cves == [] then None
    else if cves[0].cveId == cveId then Some(cves[0])
    else LookupCve(cves[1..], cveId)
  }

  function Entry(accs: seq<Accumulator>, component: Component, cveId: string): Option<RollupCve> {
    match Lookup(accs, component)
    case Some(acc) => LookupCve(acc.cves, cveId)
    case None => None
  }

  lemma {:induction false} PutCveLookup(cves: seq<RollupCve>, c: RollupCve, cveId: string)
    ensures LookupCve(PutCve(cves, c), cveId) == if cveId == c.cveId then Some(c) else LookupCve(cves, cveId)
  {
    if cves != [] {
      PutCveLookup(cves[1..], c, cveId);
    }
  }

  lemma {:induction false} MergeEntry(
    accs: seq<Accumulator>, component: Component, c: RollupCve, uses: Uses, other: Component, cveId: string)
    ensures Entry(Merge(accs, component, c, uses), other, cveId) ==
            if other == component && cveId == c.cveId then Some(c) else Entry(accs, other, cveId)
  {
    if accs == [] {
      PutCveLookup([], c, cveId);
      assert Merge(accs, component, c, uses)[1..] == [];
    } else if accs[0].component == component {
      PutCveLookup(accs[0].cves, c, cveId);
    } else {
      MergeEntry(accs[1..], component, c, uses, other, cveId);
    }
  }

  predicate IsFor(row: ComponentRow, component: Component, cveId: string) {
    row.component == component && row.cveId == cveId
  }

  lemma LastRowEntry(pep: Pep440, visible: map<string, VisibleCve>, rows: seq<ComponentRow>, row: ComponentRow,
                     component: Component, cveId: string)
    ensures Entry(Accumulate(pep, visible, rows + [row]), component, cveId) ==
            if cveId in visible && IsFor(row, component, cveId) then Some(CveOf(pep, row, visible[cveId]))
            else Entry(Accumulate(pep, visible, rows), component, cveId)
  {
    assert (rows + [row])[..|rows|] == rows;
    if row.cveId in visible {
      MergeEntry(Accumulate(pep, visible, rows), row.component, CveOf(pep, row, visible[row.cveId]), row.uses,
        component, cveId);
    }
  }

  /** The row is visible and no later row replaces its entry. */
  predicate IsCurrent(visible: map<string, VisibleCve>, row: ComponentRow, after: seq<ComponentRow>) {
    row.cveId in visible && forall r :: r in after ==> !IsFor(r, row.component, row.cveId)
  }

  /** A row that no later row replaces is exactly the entry of its component and CVE. */
  lemma {:induction false} RowIsAccumulated(
    pep: Pep440, visible: map<string, VisibleCve>, before: seq<ComponentRow>, row: ComponentRow,
    after: seq<ComponentRow>)
    requires IsCurrent(visible, row, after)
    ensures Entry(Accumulate(pep, visible, before + [row] + after), row.component, row.cveId)
            == Some(CveOf(pep, row, visible[row.cveId]))
    decreases |after|
  {
    if after == [] {
      assert before + [row] + after == before + [row];
      LastRowEntry(pep, visible, before, row, row.component, row.cveId);
    } else {
      var n := |after| - 1;
      assert before + [row] + after == before + [row] + after[..n] + [after[n]];
      RowIsAccumulated(pep, visible, before, row, after[..n]);
      LastRowEntry(pep, visible, before + [row] + after[..n], after[n], row.component, row.cveId);
    }
  }

  /** Some visible row is about the component and CVE. */
  predicate Reported(visible: map<string, VisibleCve>, rows: seq<ComponentRow>, component: Component, cveId: string) {
    cveId in visible && exists row :: row in rows && IsFor(row, component, cveId)
  }

  /** Nothing else gets an entry. */
  lemma {:induction false} EntryIffReported(
    pep: Pep440, visible: map<string, VisibleCve>, rows: seq<ComponentRow>, component: Component, cveId: string)
    ensures Entry(Accumulate(pep, visible, rows), component, cveId).Some? <==> Reported(visible, rows, component, cveId)
    decreases |rows|
  {
    if rows != [] {
      var n := |rows| - 1;
      assert rows == rows[..n] + [rows[n]];
      EntryIffReported(pep, visible, rows[..n], component, cveId);
      LastRowEntry(pep, visible, rows[..n], rows[n], component, cveId);
    }
  }

  ghost predicate UniqueCves(cves: seq<RollupCve>) {
    forall i, j :: 0 <= i < j < |cves| ==> cves[i].cveId != cves[j].cveId
  }

  lemma {:induction false} PutCveUnique(cves: seq<RollupCve>, c: RollupCve)
    requires UniqueCves(cves)
    ensures UniqueCves(PutCve(cves, c))
    ensures forall x :: x in PutCve(cves, c) ==> x.cveId == c.cveId || x in cves
  {
    if cves != [] {
      PutCveUnique(cves[1..], c);
      assert forall x :: x in cves[1..] ==> x.cveId != cves[0].cveId;
    }
  }

  lemma {:induction false} MergeCvesUnique(accs: seq<Accumulator>, component: Component, c: RollupCve, uses: Uses)
    requires forall acc :: acc in accs ==> UniqueCves(acc.cves)
    ensures forall acc :: acc in Merge(accs, component, c, uses) ==> UniqueCves(acc.cves)
  {
    if accs != [] && accs[0].component == component {
      PutCveUnique(accs[0].cves, c);
    } else if accs != [] {
      MergeCvesUnique(accs[1..], component, c, uses);
    }
  }

  /** An item counts each CVE once. */
  lemma {:induction false} ItemCvesUnique(
    pep: Pep440, visible: map<string, VisibleCve>, rows: seq<ComponentRow>, acc: Accumulator)
    requires acc in Accumulate(pep, visible, rows)
    ensures UniqueCves(acc.cves)
    decreases |rows|
  {
    var n := |rows| - 1;
    var before, row := Accumulate(pep, visible, rows[..n]), rows[n];
    forall a | a in before ensures UniqueCves(a.cves) { ItemCvesUnique(pep, visible, rows[..n], a); }
    if row.cveId in visible {
      MergeCvesUnique(before, row.component, CveOf(pep, row, visible[row.cveId]), row.uses);
    }
  }

  lemma {:induction false} LookupCveIn(cves: seq<RollupCve>, c: RollupCve)
    requires UniqueCves(cves)
    ensures c in cves <==> LookupCve(cves, c.cveId) == Some(c)
  {
    if cves != [] {
      LookupCveIn(cves[1..], c);
      assert c in cves <==> c == cves[0] || c in cves[1..];
    }
  }

  /** An item holds the CVE of a component iff a visible row reports it. */
  lemma ItemHoldsReported(pep: Pep440, visible: map<string, VisibleCve>, rows: seq<ComponentRow>, k: nat, cveId: string)
    requires k < |Accumulate(pep, visible, rows)|
    ensures var acc := Accumulate(pep, visible, rows)[k];
      UniqueCves(acc.cves)
        && ((exists c :: c in acc.cves && c.cveId == cveId) <==> Reported(visible, rows, acc.component, cveId))
  {
    var accs := Accumulate(pep, visible, rows);
    var acc := accs[k];
    ItemsUnique(pep, visible, rows);
    ItemCvesUnique(pep, visible, rows, acc);
    LookupOfUnique(accs, k);
    EntryIffReported(pep, visible, rows, acc.component, cveId);
    if c :| c in acc.cves && c.cveId == cveId {
      LookupCveIn(acc.cves, c);
    }
  }

  lemma {:induction false} LookupOfUnique(accs: seq<Accumulator>, k: nat)
    requires UniqueComponents(accs) && k < |accs|
    ensures Lookup(accs, accs[k].component) == Some(accs[k])
  {
    if k > 0 {
      LookupOfUnique(accs[1..], k - 1);
    }
  }

  ghost predicate UniqueComponents(accs: seq<Accumulator>) {
    forall i, j :: 0 <= i < j < |accs| ==> accs[i].component != accs[j].component
  }

  lemma {:induction false} MergeUnique(accs: seq<Accumulator>, component: Component, c: RollupCve, uses: Uses)
    requires UniqueComponents(accs)
    ensures UniqueComponents(Merge(accs, component, c, uses))
    ensures forall k :: 0 <= k < |Merge(accs, component, c, uses)| ==>
              var r := Merge(accs, component, c, uses);
              r[k].component == component || (k < |accs| && r[k].component == accs[k].component)
    ensures |Merge(accs, component, c, uses)| >= |accs|
  {
    if accs != [] && accs[0].component != component {
      MergeUnique(accs[1..], component, c, uses);
    }
  }

  /** One item per component. */
  lemma {:induction false} ItemsUnique(pep: Pep440, visible: map<string, VisibleCve>, rows: seq<ComponentRow>)
    ensures UniqueComponents(Accumulate(pep, visible, rows))
  {
    if rows != [] {
      var n := |rows| - 1;
      ItemsUnique(pep, visible, rows[..n]);
      if rows[n].cveId in visible {
        MergeUnique(Accumulate(pep, visible, rows[..n]), rows[n].component,
                    CveOf(pep, rows[n], visible[rows[n].cveId]), rows[n].uses);
      }
    }
  }

  lemma {:induction false} LookupIndex(accs: seq<Accumulator>, component: Component) returns (k: nat)
    requires Lookup(accs, component).Some?
    ensures k < |accs| && accs[k] == Lookup(accs, component).value && accs[k].component == component
  {
    if accs[0].component == component {
      k := 0;
    } else {
      var l := LookupIndex(accs[1..], component);
      k := l + 1;
    }
  }

  /** The candidates an item ranks. */
  ghost function ItemCandidates(acc: Accumulator): seq<Option<string>> {
    FixCandidates(Sort(acc.cves, CveBefore))
  }

  /** A fix version listed for a fixable CVE is among the candidates of the item. */
  lemma RowCandidateIsRanked(
    pep: Pep440, acc: Accumulator, c: RollupCve, row: ComponentRow, info: VisibleCve, v: string)
    requires c in acc.cves && c == CveOf(pep, row, info) && row.fixable && v in Stripped(row.fixedBy)
    ensures v in Stripped(ItemCandidates(acc))
  {
    RankPermutes(pep, row.fixedBy);
    SortPermutes(acc.cves, CveBefore);
    var candidates := ItemCandidates(acc);
    assert v in c.candidates && c in Sort(acc.cves, CveBefore);
    assert Some(v) in candidates;
    assert IsCandidate(Some(v), v);
  }

  /** A row that no later row replaces is held by an item of its component. */
  lemma ItemOfRow(pep: Pep440, visible: map<string, VisibleCve>, rows: seq<ComponentRow>, i: nat) returns (k: nat)
    requires i < |rows| && IsCurrent(visible, rows[i], rows[i + 1..])
    ensures k < |Accumulate(pep, visible, rows)| && Accumulate(pep, visible, rows)[k].component == rows[i].component
    ensures CveOf(pep, rows[i], visible[rows[i].cveId]) in Accumulate(pep, visible, rows)[k].cves
  {
    assert rows[..i] + [rows[i]] + rows[i + 1..] == rows;
    RowIsAccumulated(pep, visible, rows[..i], rows[i], rows[i + 1..]);
    k := LookupIndex(Accumulate(pep, visible, rows), rows[i].component);
  }

  /** Row `i` is the current one of a fixable CVE of the component and lists `v`. */
  predicate Fixes(visible: map<string, VisibleCve>, rows: seq<ComponentRow>, i: nat, component: Component, v: string)
    requires i < |rows|
  {
    && IsCurrent(visible, rows[i], rows[i + 1..])
    && rows[i].component == component && rows[i].fixable && v in Stripped(rows[i].fixedBy)
  }

  /** `v` fixes some visible, fixable CVE of the component. */
  predicate IsFixVersion(visible: map<string, VisibleCve>, rows: seq<ComponentRow>, component: Component, v: string) {
    exists i :: 0 <= i < |rows| && Fixes(visible, rows, i, component, v)
  }

  lemma {:induction false} LastReport(
    visible: map<string, VisibleCve>, rows: seq<ComponentRow>, component: Component, cveId: string)
    returns (i: nat)
    requires Reported(visible, rows, component, cveId)
    ensures i < |rows| && IsFor(rows[i], component, cveId) && IsCurrent(visible, rows[i], rows[i + 1..])
    decreases |rows|
  {
    var n := |rows| - 1;
    if IsFor(rows[n], component, cveId) {
      return n;
    }
    assert rows == rows[..n] + [rows[n]];
    i := LastReport(visible, rows[..n], component, cveId);
    assert rows[i + 1..] == rows[..n][i + 1..] + [rows[n]];
  }

  lemma EntryOfCve(pep: Pep440, visible: map<string, VisibleCve>, rows: seq<ComponentRow>, k: nat, c: RollupCve)
    requires k < |Accumulate(pep, visible, rows)| && c in Accumulate(pep, visible, rows)[k].cves
    ensures var component := Accumulate(pep, visible, rows)[k].component;
      Entry(Accumulate(pep, visible, rows), component, c.cveId) == Some(c)
        && Reported(visible, rows, component, c.cveId)
  {
    var accs := Accumulate(pep, visible, rows);
    ItemsUnique(pep, visible, rows);
    LookupOfUnique(accs, k);
    ItemHoldsReported(pep, visible, rows, k, c.cveId);
    LookupCveIn(accs[k].cves, c);
  }

  /** Every CVE of an item is that of a current row. */
  lemma CveComesFromRow(pep: Pep440, visible: map<string, VisibleCve>, rows: seq<ComponentRow>, k: nat, c: RollupCve)
    returns (i: nat)
    requires k < |Accumulate(pep, visible, rows)| && c in Accumulate(pep, visible, rows)[k].cves
    ensures i < |rows| && rows[i].component == Accumulate(pep, visible, rows)[k].component
    ensures IsCurrent(visible, rows[i], rows[i + 1..]) && c == CveOf(pep, rows[i], visible[rows[i].cveId])
  {
    var acc := Accumulate(pep, visible, rows)[k];
    EntryOfCve(pep, visible, rows, k, c);
    i := LastReport(visible, rows, acc.component, c.cveId);
    assert rows[..i] + [rows[i]] + rows[i + 1..] == rows;
    RowIsAccumulated(pep, visible, rows[..i], rows[i], rows[i + 1..]);
  }

  lemma CandidateOfCve(acc: Accumulator, v: string) returns (c: RollupCve, w: string)
    requires v in Stripped(ItemCandidates(acc))
    ensures c in acc.cves && c.fixable && w in c.candidates && v == Strip(w)
  {
    var candidates := ItemCandidates(acc);
    var o :| o in candidates && IsCandidate(o, v);
    SortPermutes(acc.cves, CveBefore);
    w := o.value;
    assert o == Some(w);
    c :| c in Sort(acc.cves, CveBefore) && c.fixable && w in c.candidates;
    assert c in multiset(Sort(acc.cves, CveBefore));
  }

  /** The candidates of an item are exactly the fix versions of its component. */
  lemma CandidatesAreFixVersions(
    pep: Pep440, visible: map<string, VisibleCve>, rows: seq<ComponentRow>, k: nat, v: string)
    requires k < |Accumulate(pep, visible, rows)|
    ensures var acc := Accumulate(pep, visible, rows)[k];
      v in Stripped(ItemCandidates(acc)) <==> IsFixVersion(visible, rows, acc.component, v)
  {
    if v in Stripped(ItemCandidates(Accumulate(pep, visible, rows)[k])) {
      CandidateIsFixVersion(pep, visible, rows, k, v);
    }
    if IsFixVersion(visible, rows, Accumulate(pep, visible, rows)[k].component, v) {
      FixVersionIsCandidate(pep, visible, rows, k, v);
    }
  }

  lemma CandidateIsFixVersion(pep: Pep440, visible: map<string, VisibleCve>, rows: seq<ComponentRow>, k: nat, v: string)
    requires k < |Accumulate(pep, visible, rows)| && v in Stripped(ItemCandidates(Accumulate(pep, visible, rows)[k]))
    ensures IsFixVersion(visible, rows, Accumulate(pep, visible, rows)[k].component, v)
  {
    var acc := Accumulate(pep, visible, rows)[k];
    var c, w := CandidateOfCve(acc, v);
    var i := CveComesFromRow(pep, visible, rows, k, c);
    CveListsStripped(pep, rows[i], visible[rows[i].cveId], w);
    assert Fixes(visible, rows, i, acc.component, v);
  }

  lemma CveListsStripped(pep: Pep440, row: ComponentRow, info: VisibleCve, w: string)
    ensures w in CveOf(pep, row, info).candidates <==> w in Stripped(row.fixedBy)
    ensures w in Stripped(row.fixedBy) ==> Strip(w) == w
  {
    RankPermutes(pep, row.fixedBy);
    if w in Stripped(row.fixedBy) {
      StrippedIsStripped(row.fixedBy, w);
    }
  }

  lemma FixVersionIsCandidate(pep: Pep440, visible: map<string, VisibleCve>, rows: seq<ComponentRow>, k: nat, v: string)
    requires k < |Accumulate(pep, visible, rows)|
    requires IsFixVersion(visible, rows, Accumulate(pep, visible, rows)[k].component, v)
    ensures v in Stripped(ItemCandidates(Accumulate(pep, visible, rows)[k]))
  {
    var acc := Accumulate(pep, visible, rows)[k];
    var i :| 0 <= i < |rows| && Fixes(visible, rows, i, acc.component, v);
    CurrentIsHeld(pep, visible, rows, k, i);
    RowCandidateIsRanked(pep, acc, CveOf(pep, rows[i], visible[rows[i].cveId]), rows[i], visible[rows[i].cveId], v);
  }

  lemma CurrentIsHeld(pep: Pep440, visible: map<string, VisibleCve>, rows: seq<ComponentRow>, k: nat, i: nat)
    requires k < |Accumulate(pep, visible, rows)| && i < |rows| && IsCurrent(visible, rows[i], rows[i + 1..])
    requires rows[i].component == Accumulate(pep, visible, rows)[k].component
    ensures CveOf(pep, rows[i], visible[rows[i].cveId]) in Accumulate(pep, visible, rows)[k].cves
  {
    var l := ItemOfRow(pep, visible, rows, i);
    ItemsUnique(pep, visible, rows);
    SameIndex(Accumulate(pep, visible, rows), k, l);
  }

  lemma SameIndex(accs: seq<Accumulator>, k: nat, l: nat)
    requires UniqueComponents(accs) && k < |accs| && l < |accs| && accs[k].component == accs[l].component
    ensures k == l
  {
  }

  lemma StrippedIsStripped(candidates: seq<Option<string>>, w: string)
    requires w in Stripped(candidates)
    ensures Strip(w) == w
  {
    var c :| c in candidates && IsCandidate(c, w);
  }

  ghost predicate AreFixVersions(
    visible: map<string, VisibleCve>, rows: seq<ComponentRow>, component: Component, fixes: set<string>) {
    forall v :: v in fixes <==> IsFixVersion(visible, rows, component, v)
  }

  ghost predicate AllComparable(pep: Pep440, fixes: set<string>) {
    forall v :: v in fixes ==> IsComparable(pep, v)
  }

  /** At least as high as every fix version: an upgrade to `t` fixes them all. */
  ghost predicate FixesAll(pep: Pep440, fixes: set<string>, t: string) {
    forall v :: v in fixes ==> CompareVersions(pep, v, t) <= 0
  }

  /** The highest fix version when ties with it go to the lexically smallest. */
  ghost predicate Leads(pep: Pep440, fixes: set<string>, h: string) {
    h in fixes && FixesAll(pep, fixes, h) && forall x :: x in fixes && StrLe(x, h) && x != h ==>
      CompareVersions(pep, x, h) < 0
  }

  /** With comparable fix versions only, they are what the item ranks. */
  lemma RankedAreFixes(
    pep: Pep440, visible: map<string, VisibleCve>, rows: seq<ComponentRow>, k: nat, fixes: set<string>)
    requires k < |Accumulate(pep, visible, rows)|
    requires AreFixVersions(visible, rows, Accumulate(pep, visible, rows)[k].component, fixes)
    ensures var acc := Accumulate(pep, visible, rows)[k];
      && (forall v :: v in fixes <==> v in Stripped(ItemCandidates(acc)))
      && (AllComparable(pep, fixes) ==> ComparableSet(pep, ItemCandidates(acc)) == fixes)
  {
    var acc := Accumulate(pep, visible, rows)[k];
    forall v ensures v in fixes <==> v in Stripped(ItemCandidates(acc)) {
      CandidatesAreFixVersions(pep, visible, rows, k, v);
    }
    ComparableSetMembers(pep, ItemCandidates(acc));
  }

  /** An item is uncertain iff some fix version of its component is not comparable, and has
      a target iff some is. */
  lemma UncertainIff(pep: Pep440, visible: map<string, VisibleCve>, rows: seq<ComponentRow>, k: nat, fixes: set<string>)
    requires k < |Accumulate(pep, visible, rows)|
    requires AreFixVersions(visible, rows, Accumulate(pep, visible, rows)[k].component, fixes)
    ensures var item := ToItem(pep, Accumulate(pep, visible, rows)[k]);
      && (item.uncertain <==> !AllComparable(pep, fixes))
      && (item.target.None? <==> forall v :: v in fixes ==> !IsComparable(pep, v))
      && (item.target.Some? ==> item.target.value in fixes)
  {
    RankedAreFixes(pep, visible, rows, k, fixes);
    var acc := Accumulate(pep, visible, rows)[k];
    RankPermutes(pep, ItemCandidates(acc));
    var ranking := RankVersions(pep, ItemCandidates(acc));
    if ranking.best.Some? {
      assert ranking.best.value in ranking.ordered;
    }
  }

  lemma TargetIsBest(pep: Pep440, visible: map<string, VisibleCve>, rows: seq<ComponentRow>, k: nat, fixes: set<string>)
    returns (candidates: seq<Option<string>>)
    requires k < |Accumulate(pep, visible, rows)| && fixes != {} && AllComparable(pep, fixes)
    requires AreFixVersions(visible, rows, Accumulate(pep, visible, rows)[k].component, fixes)
    ensures ComparableSet(pep, candidates) == fixes
    ensures forall v :: v in fixes <==> v in Stripped(candidates) && IsComparable(pep, v)
    ensures RankVersions(pep, candidates).best.Some?
    ensures ToItem(pep, Accumulate(pep, visible, rows)[k]).target == RankVersions(pep, candidates).best
  {
    candidates := ItemCandidates(Accumulate(pep, visible, rows)[k]);
    RankedAreFixes(pep, visible, rows, k, fixes);
    BestIsFirst(pep, candidates);
  }

  lemma HighestFixesAll(pep: Pep440, candidates: seq<Option<string>>, fixes: set<string>, t: string)
    requires forall v :: v in fixes <==> v in Stripped(candidates) && IsComparable(pep, v)
    ensures IsHighest(pep, candidates, t) <==> FixesAll(pep, fixes, t)
  {
  }

  lemma LeadsIsLeadsTies(pep: Pep440, candidates: seq<Option<string>>, fixes: set<string>, h: string)
    requires ComparableSet(pep, candidates) == fixes
    requires forall v :: v in fixes <==> v in Stripped(candidates) && IsComparable(pep, v)
    ensures Leads(pep, fixes, h) <==> LeadsTies(pep, candidates, h)
  {
    HighestFixesAll(pep, candidates, fixes, h);
  }

  /** The promise of the roll-up. An item that is not uncertain has a target that fixes
      everything iff some highest fix version stands above all lexically smaller ones. */
  lemma TargetFixesIff(
    pep: Pep440, visible: map<string, VisibleCve>, rows: seq<ComponentRow>, k: nat, fixes: set<string>)
    requires k < |Accumulate(pep, visible, rows)| && fixes != {} && AllComparable(pep, fixes)
    requires AreFixVersions(visible, rows, Accumulate(pep, visible, rows)[k].component, fixes)
    ensures var item := ToItem(pep, Accumulate(pep, visible, rows)[k]);
      item.target.Some? && (FixesAll(pep, fixes, item.target.value) <==> exists h :: Leads(pep, fixes, h))
  {
    var candidates := TargetIsBest(pep, visible, rows, k, fixes);
    BestIsHighestIff(pep, candidates);
    HighestFixesAll(pep, candidates, fixes, RankVersions(pep, candidates).best.value);
    SomeLeads(pep, candidates, fixes);
  }

  lemma SomeLeads(pep: Pep440, candidates: seq<Option<string>>, fixes: set<string>)
    requires ComparableSet(pep, candidates) == fixes
    requires forall v :: v in fixes <==> v in Stripped(candidates) && IsComparable(pep, v)
    ensures (exists h :: Leads(pep, fixes, h)) <==> exists h :: LeadsTies(pep, candidates, h)
  {
    if h :| Leads(pep, fixes, h) {
      LeadsIsLeadsTies(pep, candidates, fixes, h);
    }
    if h :| LeadsTies(pep, candidates, h) {
      LeadsIsLeadsTies(pep, candidates, fixes, h);
    }
  }

  /** Whatever comparison sort ranks them: every possible target fixes everything iff the
      fix versions are settled. */
  lemma AnyTargetFixesIff(
    pep: Pep440, visible: map<string, VisibleCve>, rows: seq<ComponentRow>, k: nat, fixes: set<string>)
    requires k < |Accumulate(pep, visible, rows)| && fixes != {} && AllComparable(pep, fixes)
    requires AreFixVersions(visible, rows, Accumulate(pep, visible, rows)[k].component, fixes)
    ensures MayReturn(ToItem(pep, Accumulate(pep, visible, rows)[k]).fixVersions, fixes, DescendingOrder(pep))
    ensures (forall l :: MayReturn(l, fixes, DescendingOrder(pep)) ==> l != [] && FixesAll(pep, fixes, l[0]))
            <==> Settled(fixes, DescendingOrder(pep))
  {
    var candidates := ItemCandidates(Accumulate(pep, visible, rows)[k]);
    RankedAreFixes(pep, visible, rows, k, fixes);
    BestIsFirst(pep, candidates);
    NoOthers(pep, candidates);
    AnySortIsHighestIff(pep, candidates);
    forall t ensures IsHighest(pep, candidates, t) <==> FixesAll(pep, fixes, t) {
      HighestFixesAll(pep, candidates, fixes, t);
    }
  }

  lemma NoOthers(pep: Pep440, candidates: seq<Option<string>>)
    requires forall v :: v in Stripped(candidates) ==> IsComparable(pep, v)
    ensures RankVersions(pep, candidates).ordered == SortedComparables(pep, candidates)
  {
    RankParts(pep, candidates);
    HeadIn(Others(pep, candidates));
  }

  lemma HeadIn<T>(s: seq<T>)
    ensures s == [] || s[0] in s
  {
  }

  /** In particular the target fixes everything when the two version orders agree on the fix
      versions, as they do when all are PEP 440 or all are not. */
  lemma TargetFixesEverything(
    pep: Pep440, visible: map<string, VisibleCve>, rows: seq<ComponentRow>, k: nat, fixes: set<string>)
    requires k < |Accumulate(pep, visible, rows)| && fixes != {} && OrdersAgree(pep, fixes)
    requires AreFixVersions(visible, rows, Accumulate(pep, visible, rows)[k].component, fixes)
    ensures var item := ToItem(pep, Accumulate(pep, visible, rows)[k]);
      !item.uncertain ==> item.target.Some? && FixesAll(pep, fixes, item.target.value)
  {
    UncertainIff(pep, visible, rows, k, fixes);
    if AllComparable(pep, fixes) {
      var candidates := TargetIsBest(pep, visible, rows, k, fixes);
      AgreementSettles(pep, fixes);
      SettledBestIsHighest(pep, candidates);
      HighestFixesAll(pep, candidates, fixes, RankVersions(pep, candidates).best.value);
    }
  }

  // ----- an item whose target misses a fix -----

  function FixRow(component: Component, cveId: string, version: string, uses: Uses): ComponentRow {
    ComponentRow(component, cveId, [Some(version)], true, uses)
  }

  lemma OneVersion(v: string, w: string)
    requires v != "" && IsStripped(v)
    ensures w in Stripped([Some(v)]) <==> w == v
  {
    assert HasCandidate([Some(v)], w) <==> IsCandidate(Some(v), w);
  }

  /** Each row of a component fixes another CVE by one version. */
  ghost predicate OneEach(visible: map<string, VisibleCve>, rows: seq<ComponentRow>, component: Component, uses: Uses,
                          ids: seq<string>, versions: seq<string>) {
    && |ids| == |versions| == |rows| && Distinct(ids)
    && forall i :: 0 <= i < |rows| ==>
         ids[i] in visible && versions[i] != "" && IsStripped(versions[i])
           && rows[i] == FixRow(component, ids[i], versions[i], uses)
  }

  lemma RowFixes(visible: map<string, VisibleCve>, rows: seq<ComponentRow>, component: Component, uses: Uses,
                 ids: seq<string>, versions: seq<string>, i: nat, v: string)
    requires OneEach(visible, rows, component, uses, ids, versions) && i < |rows|
    ensures IsCurrent(visible, rows[i], rows[i + 1..])
    ensures Fixes(visible, rows, i, component, v) <==> v == versions[i]
  {
    OneVersion(versions[i], v);
    forall r | r in rows[i + 1..] ensures !IsFor(r, component, ids[i]) {
      var j :| 0 <= j < |rows[i + 1..]| && rows[i + 1..][j] == r;
      assert r == rows[i + 1 + j];
    }
  }

  lemma OneEachFixes(visible: map<string, VisibleCve>, rows: seq<ComponentRow>, component: Component, uses: Uses,
                     ids: seq<string>, versions: seq<string>, v: string)
    requires OneEach(visible, rows, component, uses, ids, versions)
    ensures IsFixVersion(visible, rows, component, v) <==> v in versions
  {
    forall i | 0 <= i < |rows| ensures Fixes(visible, rows, i, component, v) <==> v == versions[i] {
      RowFixes(visible, rows, component, uses, ids, versions, i, v);
    }
    if v in versions {
      var i :| 0 <= i < |versions| && versions[i] == v;
      assert Fixes(visible, rows, i, component, v);
    }
  }

  /** An item whose component has a cycle of fix versions misses one of them. */
  lemma CycleItemMisses(
    pep: Pep440, visible: map<string, VisibleCve>, rows: seq<ComponentRow>, k: nat, a: string, b: string, c: string)
    returns (missed: string)
    requires k < |Accumulate(pep, visible, rows)| && ComparableCycle(pep, a, b, c)
    requires forall v ::
      IsFixVersion(visible, rows, Accumulate(pep, visible, rows)[k].component, v) <==> OneOf(v, a, b, c)
    ensures var item := ToItem(pep, Accumulate(pep, visible, rows)[k]);
      !item.uncertain && item.target.Some? && CompareVersions(pep, missed, item.target.value) == 1
    ensures IsFixVersion(visible, rows, Accumulate(pep, visible, rows)[k].component, missed)
  {
    var candidates := ItemCandidates(Accumulate(pep, visible, rows)[k]);
    forall v ensures v in Stripped(candidates) <==> OneOf(v, a, b, c) {
      CandidatesAreFixVersions(pep, visible, rows, k, v);
    }
    missed := CycleIsMisranked(pep, candidates, a, b, c);
    CandidatesAreFixVersions(pep, visible, rows, k, missed);
  }

  /** The promise fails for 1.0rc1, 1.0 and 1.0-foo, each fixing one CVE of the component:
      the item is not marked uncertain, and a CVE stays unfixed at its target. */
  lemma ReleaseItemMisses(pep: Pep440, visible: map<string, VisibleCve>, component: Component, uses: Uses,
                          rows: seq<ComponentRow>, ids: seq<string>)
    returns (k: nat, missed: string)
    requires pep("1.0rc1").Some? && pep("1.0").Some? && pep("1.0-foo").None?
    requires pep("1.0rc1").value < pep("1.0").value
    requires OneEach(visible, rows, component, uses, ids, ["1.0rc1", "1.0", "1.0-foo"])
    ensures k < |Accumulate(pep, visible, rows)| && Accumulate(pep, visible, rows)[k].component == component
    ensures var item := ToItem(pep, Accumulate(pep, visible, rows)[k]);
      !item.uncertain && item.target.Some? && CompareVersions(pep, missed, item.target.value) == 1
    ensures IsFixVersion(visible, rows, component, missed)
  {
    assert ComparableCycle(pep, "1.0rc1", "1.0", "1.0-foo") by { ReleaseCycle(pep); }
    k, missed := OneEachMisses(pep, visible, component, uses, rows, ids, "1.0rc1", "1.0", "1.0-foo");
  }

  lemma ThreeFixes(visible: map<string, VisibleCve>, rows: seq<ComponentRow>, component: Component, uses: Uses,
                   ids: seq<string>, a: string, b: string, c: string)
    requires OneEach(visible, rows, component, uses, ids, [a, b, c])
    ensures forall v :: IsFixVersion(visible, rows, component, v) <==> OneOf(v, a, b, c)
  {
    forall v ensures IsFixVersion(visible, rows, component, v) <==> OneOf(v, a, b, c) {
      OneEachFixes(visible, rows, component, uses, ids, [a, b, c], v);
    }
  }

  lemma OneEachMisses(pep: Pep440, visible: map<string, VisibleCve>, component: Component, uses: Uses,
                      rows: seq<ComponentRow>, ids: seq<string>, a: string, b: string, c: string)
    returns (k: nat, missed: string)
    requires ComparableCycle(pep, a, b, c) && OneEach(visible, rows, component, uses, ids, [a, b, c])
    ensures k < |Accumulate(pep, visible, rows)| && Accumulate(pep, visible, rows)[k].component == component
    ensures var item := ToItem(pep, Accumulate(pep, visible, rows)[k]);
      !item.uncertain && item.target.Some? && CompareVersions(pep, missed, item.target.value) == 1
    ensures IsFixVersion(visible, rows, component, missed)
  {
    k := LastHasItem(pep, visible, rows, component, uses, ids, [a, b, c]);
    ThreeFixes(visible, rows, component, uses, ids, a, b, c);
    missed := CycleItemMisses(pep, visible, rows, k, a, b, c);
  }

  lemma LastHasItem(pep: Pep440, visible: map<string, VisibleCve>, rows: seq<ComponentRow>, component: Component,
                    uses: Uses, ids: seq<string>, versions: seq<string>) returns (k: nat)
    requires OneEach(visible, rows, component, uses, ids, versions) && rows != []
    ensures k < |Accumulate(pep, visible, rows)| && Accumulate(pep, visible, rows)[k].component == component
  {
    var n := |rows| - 1;
    RowFixes(visible, rows, component, uses, ids, versions, n, versions[n]);
    k := ItemOfRow(pep, visible, rows, n);
  }

  // ----- where a component is found -----

  /** What the visible rows of a component say, in order. */
  function ComponentUses(visible: map<string, VisibleCve>, rows: seq<ComponentRow>, component: Component): Uses {
    if rows == [] then NOWHERE
    else
      var n := |rows| - 1;
      var before := ComponentUses(visible, rows[..n], component);
      if rows[n].cveId in visible && rows[n].component == component then Both(before, rows[n].uses) else before
  }

  lemma {:induction false} MergeLookup(
    accs: seq<Accumulator>, component: Component, c: RollupCve, uses: Uses, other: Component)
    ensures var before, after := Lookup(accs, other), Lookup(Merge(accs, component, c, uses), other);
      if other == component then
        after.Some? && after.value.uses == Both(if before.Some? then before.value.uses else NOWHERE, uses)
      else after == before
  {
    if accs != [] && accs[0].component != component {
      MergeLookup(accs[1..], component, c, uses, other);
    }
  }

  lemma {:induction false} UsesAreFolded(
    pep: Pep440, visible: map<string, VisibleCve>, rows: seq<ComponentRow>, component: Component)
    ensures var found := Lookup(Accumulate(pep, visible, rows), component);
      ComponentUses(visible, rows, component) == if found.Some? then found.value.uses else NOWHERE
    decreases |rows|
  {
    if rows != [] {
      var n := |rows| - 1;
      UsesAreFolded(pep, visible, rows[..n], component);
      if rows[n].cveId in visible {
        MergeLookup(Accumulate(pep, visible, rows[..n]), rows[n].component,
                    CveOf(pep, rows[n], visible[rows[n].cveId]), rows[n].uses, component);
      }
    }
  }

  predicate Locates(visible: map<string, VisibleCve>, row: ComponentRow, component: Component) {
    row.cveId in visible && row.component == component
  }

  ghost predicate SomeRow(
    visible: map<string, VisibleCve>, rows: seq<ComponentRow>, component: Component, p: Uses -> bool)
  {
    exists row :: row in rows && Locates(visible, row, component) && p(row.uses)
  }

  lemma SomeRowLast(visible: map<string, VisibleCve>, rows: seq<ComponentRow>, component: Component, p: Uses -> bool)
    requires rows != []
    ensures var n := |rows| - 1;
      SomeRow(visible, rows, component, p) <==>
      SomeRow(visible, rows[..n], component, p) || (Locates(visible, rows[n], component) && p(rows[n].uses))
  {
    assert rows == rows[..|rows| - 1] + [rows[|rows| - 1]];
  }

  /** Exactly the non-empty ids and names the visible rows of the component mention, with
      replaced rows included, and one name for each image. */
  lemma {:induction false} UsesAreMentioned(
    visible: map<string, VisibleCve>, rows: seq<ComponentRow>, component: Component, x: string)
    ensures var uses := ComponentUses(visible, rows, component);
      && (x in uses.deployments <==> x != "" && SomeRow(visible, rows, component, (u: Uses) => x in u.deployments))
      && (x in uses.namespaces <==> x != "" && SomeRow(visible, rows, component, (u: Uses) => x in u.namespaces))
      && (HasImage(uses.images, x) <==>
            x != "" && SomeRow(visible, rows, component, (u: Uses) => HasImage(u.images, x)))
      && OneNamePerImage(uses.images) && Distinct(uses.namespaces)
    decreases |rows|
  {
    if rows != [] {
      var n := |rows| - 1;
      UsesAreMentioned(visible, rows[..n], component, x);
      SomeRowLast(visible, rows, component, (u: Uses) => x in u.deployments);
      SomeRowLast(visible, rows, component, (u: Uses) => x in u.namespaces);
      SomeRowLast(visible, rows, component, (u: Uses) => HasImage(u.images, x));
    }
  }

  lemma CveBeforeOrder()
    ensures TotalPreorder(CveBefore)
  {
  }

  /** What an item shows: each CVE once, prioritized, then most severe, then most likely
      exploited first; sorted names of its namespaces and images. */
  lemma ItemShows(pep: Pep440, acc: Accumulator)
    ensures var item := ToItem(pep, acc);
      && multiset(item.cves) == multiset(acc.cves) && Sorted(item.cves, CveBefore) && item.totalCves == |acc.cves|
      && multiset(item.namespaces) == multiset(acc.uses.namespaces) && Sorted(item.namespaces, StrLe)
      && multiset(item.images) == multiset(acc.uses.images) && Sorted(item.images, ImageNameLe)
      && item.affectedImages == |item.images|
  {
    CveBeforeOrder();
    StrLeOrder();
    SortPermutes(acc.cves, CveBefore);
    SortSorts(acc.cves, CveBefore);
    SameElements(acc.cves, Sort(acc.cves, CveBefore));
    SortPermutes(acc.uses.namespaces, StrLe);
    SortSorts(acc.uses.namespaces, StrLe);
    SortPermutes(acc.uses.images, ImageNameLe);
    SortSorts(acc.uses.images, ImageNameLe);
    SameElements(acc.uses.images, Sort(acc.uses.images, ImageNameLe));
  }

  // ----- sort_items -----

  datatype SortKey = FixableCves | TotalCves | MaxEpss | MaxCvss | AffectedImages | AffectedDeployments | ComponentName

  predicate NameLe(x: Item, y: Item) {
    LexLe(x.component.name, x.component.version, y.component.name, y.component.version)
  }

  predicate EpssDesc(x: Item, y: Item) {
    x.maxEpss >= y.maxEpss
  }

  predicate KeyLe(key: SortKey, x: Item, y: Item) {
    match key
    case FixableCves => x.fixableCves <= y.fixableCves
    case TotalCves => x.totalCves <= y.totalCves
    case MaxEpss => x.maxEpss <= y.maxEpss
    case MaxCvss => x.maxCvss <= y.maxCvss
    case AffectedImages => x.affectedImages <= y.affectedImages
    case AffectedDeployments => x.affectedDeployments <= y.affectedDeployments
    case ComponentName => StrLe(x.component.name, y.component.name)
  }

  predicate PrimaryLe(key: SortKey, desc: bool, x: Item, y: Item) {
    if desc then KeyLe(key, y, x) else KeyLe(key, x, y)
  }

  predicate PrioritizedFirst(x: Item, y: Item) {
    x.prioritizedCves == 0 ==> y.prioritizedCves == 0
  }

  /** `sort_items`: four stable passes, tie-breakers first. */
  function SortItems(items: seq<Item>, key: SortKey, desc: bool): seq<Item> {
    Sort(Sort(Sort(Sort(items, NameLe), EpssDesc), (x, y) => PrimaryLe(key, desc, x, y)), PrioritizedFirst)
  }

  /** The order a reader sees: prioritized components, then the chosen key, then EPSS,
      then name and version. */
  predicate Shown(key: SortKey, desc: bool, x: Item, y: Item) {
    PrioritizedFirst(x, y)
    && (PrioritizedFirst(y, x) ==>
          PrimaryLe(key, desc, x, y)
          && (PrimaryLe(key, desc, y, x) ==>
                EpssDesc(x, y) && (EpssDesc(y, x) ==> NameLe(x, y))))
  }

  lemma NameLePreorder()
    ensures TotalPreorder(NameLe)
  {
    StrLeOrder();
  }

  lemma PrimaryPreorder(key: SortKey, desc: bool)
    ensures TotalPreorder((x: Item, y: Item) => PrimaryLe(key, desc, x, y))
  {
    StrLeOrder();
  }

  /** The passes together sort by all four keys ... */
  lemma SortItemsShown(items: seq<Item>, key: SortKey, desc: bool, i: nat, j: nat)
    requires i < j < |SortItems(items, key, desc)|
    ensures Shown(key, desc, SortItems(items, key, desc)[i], SortItems(items, key, desc)[j])
  {
    var primary := (x: Item, y: Item) => PrimaryLe(key, desc, x, y);
    NameLePreorder();
    PrimaryPreorder(key, desc);
    SortSorts(items, NameLe);
    var le2 := (a, b) => Lex(EpssDesc, NameLe, a, b);
    var le3 := (a, b) => Lex(primary, le2, a, b);
    SortLex(Sort(items, NameLe), EpssDesc, NameLe);
    SortLex(Sort(Sort(items, NameLe), EpssDesc), primary, le2);
    SortLex(Sort(Sort(Sort(items, NameLe), EpssDesc), primary), PrioritizedFirst, le3);
    assert SortItems(items, key, desc) == Sort(Sort(Sort(Sort(items, NameLe), EpssDesc), primary), PrioritizedFirst);
    ShownIsLex(key, desc, SortItems(items, key, desc)[i], SortItems(items, key, desc)[j]);
  }

  lemma ShownIsLex(key: SortKey, desc: bool, x: Item, y: Item)
    ensures var primary := (x: Item, y: Item) => PrimaryLe(key, desc, x, y);
      var le2 := (a, b) => Lex(EpssDesc, NameLe, a, b);
      var le3 := (a, b) => Lex(primary, le2, a, b);
      Lex(PrioritizedFirst, le3, x, y) <==> Shown(key, desc, x, y)
  {
  }

  /** ... and drop nothing. */
  lemma SortItemsPermutes(items: seq<Item>, key: SortKey, desc: bool)
    ensures multiset(SortItems(items, key, desc)) == multiset(items)
  {
    var primary := (x: Item, y: Item) => PrimaryLe(key, desc, x, y);
    SortPermutes(items, NameLe);
    SortPermutes(Sort(items, NameLe), EpssDesc);
    SortPermutes(Sort(Sort(items, NameLe), EpssDesc), primary);
    SortPermutes(Sort(Sort(Sort(items, NameLe), EpssDesc), primary), PrioritizedFirst);
  }
}
