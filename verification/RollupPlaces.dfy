/** Where a roll-up item says its component is found, and in which order it lists things, told
    on its component's rows (services/fix_rollup_service.py). */
module RollupPlaces {
  import opened Wrappers
  import opened Ordering
  import opened Versions
  import opened FixRollup

  // ----- images -----

  /** All images that the component's visible rows mention, in order and with repetitions. */
  function Mentions(visible: map<string, VisibleCve>, rows: seq<ComponentRow>, component: Component): seq<Image> {
    if |rows| == 0 then []
    else
      var n := |rows| - 1;
      var before := Mentions(visible, rows[..n], component);
      if rows[n].component == component && rows[n].cveId in visible then before + rows[n].uses.images else before
  }

  predicate IsMentioned(mentions: seq<Image>, id: string) {
    exists m :: m in mentions && m.id == id
  }

  /** `x` is the first mention of its image, under the image's id when that has no name. */
  ghost predicate NamedFirst(mentions: seq<Image>, x: Image) {
    |x.id| > 0 && exists i :: FirstAt(mentions, x.id, i) && x.name == NameOf(mentions[i])
  }

  predicate FirstAt(mentions: seq<Image>, id: string, i: int) {
    0 <= i < |mentions| && mentions[i].id == id && forall j :: 0 <= j < i ==> mentions[j].id != id
  }

  function NameOf(m: Image): string {
    if |m.name| > 0 then m.name else m.id
  }

  lemma {:induction false} FirstExists(mentions: seq<Image>, id: string) returns (i: nat)
    requires IsMentioned(mentions, id)
    ensures FirstAt(mentions, id, i)
    decreases |mentions|
  {
    var n := |mentions| - 1;
    assert mentions == mentions[..n] + [mentions[n]];
    if IsMentioned(mentions[..n], id) {
      i := FirstExists(mentions[..n], id);
    } else {
      i := n;
      forall j | 0 <= j < n ensures mentions[j].id != id {
        assert mentions[..n][j] in mentions[..n];
      }
    }
  }

  lemma FirstIsMentioned(mentions: seq<Image>, id: string, i: int)
    requires FirstAt(mentions, id, i)
    ensures IsMentioned(mentions, id)
  {
    assert mentions[i] in mentions;
  }

  /** One more mention names an image that was not mentioned before, and no other. */
  lemma NamedFirstLast(mentions: seq<Image>, m: Image, x: Image)
    ensures NamedFirst(mentions + [m], x) <==>
            || NamedFirst(mentions, x)
            || (|m.id| > 0 && !IsMentioned(mentions, m.id) && x == Image(m.id, NameOf(m)))
  {
    var longer := mentions + [m];
    if NamedFirst(longer, x) {
      var i :| FirstAt(longer, x.id, i) && x.name == NameOf(longer[i]);
      if i < |mentions| {
        assert FirstAt(mentions, x.id, i) by { assert forall j :: 0 <= j < i ==> longer[j] == mentions[j]; }
      } else {
        NotBefore(mentions, m, x.id);
      }
    }
    if NamedFirst(mentions, x) {
      var i :| FirstAt(mentions, x.id, i) && x.name == NameOf(mentions[i]);
      assert FirstAt(longer, x.id, i);
    }
    if |m.id| > 0 && !IsMentioned(mentions, m.id) && x == Image(m.id, NameOf(m)) {
      assert FirstAt(longer, m.id, |mentions|);
    }
  }

  lemma NotBefore(mentions: seq<Image>, m: Image, id: string)
    requires FirstAt(mentions + [m], id, |mentions|)
    ensures !IsMentioned(mentions, id)
  {
    forall x | x in mentions ensures x.id != id {
      var i :| 0 <= i < |mentions| && mentions[i] == x;
      assert (mentions + [m])[i] == x;
    }
  }

  ghost predicate AreNamed(images: seq<Image>, mentions: seq<Image>) {
    forall x :: x in images <==> NamedFirst(mentions, x)
  }

  lemma NamedAreMentioned(images: seq<Image>, mentions: seq<Image>, id: string)
    requires AreNamed(images, mentions)
    ensures HasImage(images, id) <==> |id| > 0 && IsMentioned(mentions, id)
  {
    if HasImage(images, id) {
      var x :| x in images && x.id == id;
      var i :| FirstAt(mentions, x.id, i) && x.name == NameOf(mentions[i]);
      FirstIsMentioned(mentions, id, i);
    }
    if |id| > 0 && IsMentioned(mentions, id) {
      var i := FirstExists(mentions, id);
      assert NamedFirst(mentions, Image(id, NameOf(mentions[i])));
    }
  }

  lemma {:induction false} AddedAreNamed(images: seq<Image>, mentions: seq<Image>, more: seq<Image>)
    requires AreNamed(images, mentions)
    ensures AreNamed(AddImages(images, more), mentions + more)
    decreases |more|
  {
    if |more| == 0 {
      assert mentions + more == mentions;
    } else {
      var n := |more| - 1;
      AddedAreNamed(images, mentions, more[..n]);
      LastAdded(images, more);
      LastMention(mentions, more);
      AddedIsNamed(AddImages(images, more[..n]), mentions + more[..n], more[n], AddImages(images, more));
    }
  }

  lemma LastAdded(images: seq<Image>, more: seq<Image>)
    requires |more| > 0
    ensures var before, m := AddImages(images, more[..|more| - 1]), more[|more| - 1];
      AddImages(images, more) ==
      if |m.id| == 0 || HasImage(before, m.id) then before else before + [Image(m.id, NameOf(m))]
  {
  }

  lemma LastMention(mentions: seq<Image>, more: seq<Image>)
    requires |more| > 0
    ensures mentions + more == mentions + more[..|more| - 1] + [more[|more| - 1]]
  {
  }

  lemma AddedIsNamed(images: seq<Image>, mentions: seq<Image>, m: Image, longer: seq<Image>)
    requires AreNamed(images, mentions)
    requires longer == if |m.id| == 0 || HasImage(images, m.id) then images else images + [Image(m.id, NameOf(m))]
    ensures AreNamed(longer, mentions + [m])
  {
    NamedAreMentioned(images, mentions, m.id);
    forall x ensures x in longer <==> NamedFirst(mentions + [m], x) {
      NamedFirstLast(mentions, m, x);
    }
  }

  lemma {:induction false} ImagesAreNamed(
    visible: map<string, VisibleCve>, rows: seq<ComponentRow>, component: Component)
    ensures AreNamed(ComponentUses(visible, rows, component).images, Mentions(visible, rows, component))
    decreases |rows|
  {
    if rows != [] {
      var n := |rows| - 1;
      ImagesAreNamed(visible, rows[..n], component);
      AddedAreNamed(ComponentUses(visible, rows[..n], component).images, Mentions(visible, rows[..n], component),
                    rows[n].uses.images);
    }
  }

  // ----- an item's places -----

  /** The deployments that the component's visible rows mention. */
  ghost function DeploymentsOf(
    visible: map<string, VisibleCve>, rows: seq<ComponentRow>, component: Component): set<string>
  {
    set row, d | row in rows && row.component == component && row.cveId in visible && d in row.uses.deployments
                 && |d| > 0 :: d
  }

  predicate IsNamespaceOf(
    visible: map<string, VisibleCve>, rows: seq<ComponentRow>, component: Component, namespace: string)
  {
    |namespace| > 0 && exists row :: row in rows && row.component == component && row.cveId in visible
                                     && namespace in row.uses.namespaces
  }

  lemma RestIsUnique(accs: seq<Accumulator>)
    requires accs != [] && UniqueComponents(accs)
    ensures UniqueComponents(accs[1..])
  {
    forall i, j | 0 <= i < j < |accs[1..]| ensures accs[1..][i].component != accs[1..][j].component {
      assert accs[i + 1].component != accs[j + 1].component;
    }
  }

  lemma {:induction false} FoundAtItsPlace(accs: seq<Accumulator>, k: nat)
    requires UniqueComponents(accs) && k < |accs|
    ensures Lookup(accs, accs[k].component) == Some(accs[k])
    decreases |accs|
  {
    if k > 0 {
      assert accs[0].component != accs[k].component;
      RestIsUnique(accs);
      FoundAtItsPlace(accs[1..], k - 1);
    }
  }

  lemma UsesOfItem(pep: Pep440, visible: map<string, VisibleCve>, rows: seq<ComponentRow>, k: nat)
    requires k < |Accumulate(pep, visible, rows)|
    ensures var acc := Accumulate(pep, visible, rows)[k];
      acc.uses == ComponentUses(visible, rows, acc.component)
  {
    ItemsUnique(pep, visible, rows);
    FoundAtItsPlace(Accumulate(pep, visible, rows), k);
    UsesAreFolded(pep, visible, rows, Accumulate(pep, visible, rows)[k].component);
  }

  /** An item lists each image under its first name, its namespaces, and counts its images and
      deployments: those that the component's visible rows mention. */
  lemma ItemPlaces(pep: Pep440, visible: map<string, VisibleCve>, rows: seq<ComponentRow>, k: nat)
    requires k < |Accumulate(pep, visible, rows)|
    ensures var item := ToItem(pep, Accumulate(pep, visible, rows)[k]);
      && (forall x :: x in item.images <==> NamedFirst(Mentions(visible, rows, item.component), x))
      && (forall n :: n in item.namespaces <==> IsNamespaceOf(visible, rows, item.component, n))
      && item.affectedImages == |item.images|
      && item.affectedDeployments == |DeploymentsOf(visible, rows, item.component)|
  {
    var acc := Accumulate(pep, visible, rows)[k];
    UsesOfItem(pep, visible, rows, k);
    ImagesAreNamed(visible, rows, acc.component);
    PlacesOf(visible, rows, acc.component);
    ShownPlaces(pep, acc);
  }

  lemma ShownPlaces(pep: Pep440, acc: Accumulator)
    ensures var item := ToItem(pep, acc);
      && item.component == acc.component
      && (forall x :: x in item.images <==> x in acc.uses.images)
      && (forall n :: n in item.namespaces <==> n in acc.uses.namespaces)
      && item.affectedImages == |item.images| && item.affectedDeployments == |acc.uses.deployments|
  {
    ItemShows(pep, acc);
    SameMembers(ToItem(pep, acc).images, acc.uses.images);
    SameMembers(ToItem(pep, acc).namespaces, acc.uses.namespaces);
  }

  lemma SameMembers<T>(a: seq<T>, b: seq<T>)
    requires multiset(a) == multiset(b)
    ensures forall x :: x in a <==> x in b
  {
    forall x ensures x in a <==> x in b {
      assert x in a <==> x in multiset(a);
      assert x in b <==> x in multiset(b);
    }
  }

  lemma PlacesOf(visible: map<string, VisibleCve>, rows: seq<ComponentRow>, component: Component)
    ensures var uses := ComponentUses(visible, rows, component);
      && uses.deployments == DeploymentsOf(visible, rows, component)
      && forall n :: n in uses.namespaces <==> IsNamespaceOf(visible, rows, component, n)
  {
    var uses := ComponentUses(visible, rows, component);
    forall d ensures d in uses.deployments <==> d in DeploymentsOf(visible, rows, component) {
      DeploymentIs(visible, rows, component, d);
    }
    forall n ensures n in uses.namespaces <==> IsNamespaceOf(visible, rows, component, n) {
      NamespaceIs(visible, rows, component, n);
    }
  }

  lemma DeploymentIs(visible: map<string, VisibleCve>, rows: seq<ComponentRow>, component: Component, d: string)
    ensures d in ComponentUses(visible, rows, component).deployments <==> d in DeploymentsOf(visible, rows, component)
  {
    UsesAreMentioned(visible, rows, component, d);
    var mentions := (u: Uses) => d in u.deployments;
    if row :| row in rows && row.component == component && row.cveId in visible && d in row.uses.deployments {
      assert Locates(visible, row, component) && mentions(row.uses);
    }
  }

  lemma NamespaceIs(visible: map<string, VisibleCve>, rows: seq<ComponentRow>, component: Component, n: string)
    ensures n in ComponentUses(visible, rows, component).namespaces <==> IsNamespaceOf(visible, rows, component, n)
  {
    UsesAreMentioned(visible, rows, component, n);
    var mentions := (u: Uses) => n in u.namespaces;
    if row :| row in rows && row.component == component && row.cveId in visible && n in row.uses.namespaces {
      assert Locates(visible, row, component) && mentions(row.uses);
    }
  }

  // ----- what an item lists first -----

  /** Prioritized CVEs come first, then the more severe, then the likelier exploited; images and
      namespaces come by name. */
  lemma ItemIsOrdered(pep: Pep440, acc: Accumulator, i: nat, j: nat)
    requires i < j
    ensures var cves := ToItem(pep, acc).cves;
      j < |cves| ==>
        var x, y := cves[i].info, cves[j].info;
        && (y.hasPriority ==> x.hasPriority)
        && (x.hasPriority == y.hasPriority ==>
              x.severity > y.severity || (x.severity == y.severity && x.epss >= y.epss))
    ensures var images := ToItem(pep, acc).images; j < |images| ==> StrLe(images[i].name, images[j].name)
    ensures var namespaces := ToItem(pep, acc).namespaces; j < |namespaces| ==> StrLe(namespaces[i], namespaces[j])
  {
    ItemShows(pep, acc);
    var item := ToItem(pep, acc);
    assert j < |item.cves| ==> CveBefore(item.cves[i], item.cves[j]);
    assert j < |item.images| ==> ImageNameLe(item.images[i], item.images[j]);
  }
}
