/** Cross-cluster namespace access from annotations (stackrox/namespace_access.py): the
    index built from annotation rows answers exactly like a scan of the rows. */
module NamespaceAccess {
  import opened Text
  import opened Ordering
  import opened Pairs

  /** One annotated namespace; missing values are empty strings. */
  datatype AnnotationRow = AnnotationRow(pair: Pair, users: string, groups: string)

  function Key(name: string): string {
    Lower(Strip(name))
  }

  predicate IsNamed(name: string, key: string) {
    Strip(name) != [] && Key(name) == key
  }

  function Keys(names: seq<string>): seq<string> {
    if names == [] then []
    else (if Strip(names[0]) != [] then [Key(names[0])] else []) + Keys(names[1..])
  }

  /** `_split_names`: trimmed, lower-cased, without empty names. */
  function SplitNames(raw: string): seq<string> {
    if raw == [] then [] else Keys(Split(raw, ','))
  }

  predicate AnyNamed(names: seq<string>, key: string) {
    exists n :: n in names && IsNamed(n, key)
  }

  lemma NamesFirst(names: seq<string>, key: string)
    requires names != []
    ensures AnyNamed(names, key) <==> IsNamed(names[0], key) || AnyNamed(names[1..], key)
  {
    assert names == [names[0]] + names[1..];
  }

  lemma KeysFirst(names: seq<string>, key: string)
    requires names != []
    ensures key in Keys(names) <==> IsNamed(names[0], key) || key in Keys(names[1..])
  {
    assert Keys(names) == (if Strip(names[0]) != [] then [Key(names[0])] else []) + Keys(names[1..]);
  }

  lemma {:induction false} KeysMembers(names: seq<string>, key: string)
    ensures key in Keys(names) <==> AnyNamed(names, key)
  {
    if names != [] {
      KeysMembers(names[1..], key);
      NamesFirst(names, key);
      KeysFirst(names, key);
    }
  }

  // ----- peer_clusters -----

  function Stripped(names: seq<string>): set<string> {
    set n | n in names && Strip(n) != [] :: Strip(n)
  }

  /** `cluster` shares an access set with `origin` and is another cluster. */
  ghost predicate IsPeer(origin: string, sets: seq<seq<string>>, cluster: string) {
    Strip(origin) != [] && cluster != Strip(origin)
    && exists s :: s in sets && Strip(origin) in Stripped(s) && cluster in Stripped(s)
  }

  method PeerClusters(origin: string, sets: seq<seq<string>>) returns (peers: set<string>)
    ensures forall c :: c in peers <==> IsPeer(origin, sets, c)
  {
    peers := {};
    if Strip(origin) == [] {
      return;
    }
    for i := 0 to |sets|
      invariant forall c :: c in peers <==>
                  exists s :: s in sets[..i] && Strip(origin) in Stripped(s) && c in Stripped(s)
    {
      assert sets[..i + 1] == sets[..i] + [sets[i]];
      if Strip(origin) in Stripped(sets[i]) {
        peers := peers + Stripped(sets[i]);
      }
    }
    assert sets[..|sets|] == sets;
    peers := peers - {Strip(origin)};
  }

  // ----- build_access_index -----

  /** Names to namespaces on one cluster. */
  type Names = map<string, set<string>>

  datatype ClusterAccess = ClusterAccess(users: Names, groups: Names)

  type Index = map<string, ClusterAccess>

  function NamespacesOf(names: Names, key: string): set<string> {
    if key in names then names[key] else {}
  }

  function ClusterNames(table: map<string, Names>, cluster: string): Names {
    if cluster in table then table[cluster] else map[]
  }

  /** `table.setdefault(cluster, {}).setdefault(key, set()).add(namespace)` */
  function Put(table: map<string, Names>, pair: Pair, key: string): map<string, Names> {
    var names := ClusterNames(table, pair.cluster);
    table[pair.cluster := names[key := NamespacesOf(names, key) + {pair.namespace}]]
  }

  ghost predicate Maps(table: map<string, Names>, cluster: string, key: string, namespace: string) {
    namespace in NamespacesOf(ClusterNames(table, cluster), key)
  }

  predicate Usable(row: AnnotationRow) {
    row.pair.cluster != [] && row.pair.namespace != []
  }

  /** A usable row annotates the namespace with this user (or group). */
  ghost predicate Annotated(rows: seq<AnnotationRow>, groups: bool, pair: Pair, key: string) {
    exists r :: r in rows && Usable(r) && r.pair == pair && key in SplitNames(if groups then r.groups else r.users)
  }

  method PutAll(table: map<string, Names>, pair: Pair, keys: seq<string>) returns (t: map<string, Names>)
    ensures forall c, k, n :: Maps(t, c, k, n) <==> Maps(table, c, k, n) || (Pair(n, c) == pair && k in keys)
    ensures t.Keys == table.Keys + if keys != [] then {pair.cluster} else {}
  {
    t := table;
    for i := 0 to |keys|
      invariant forall c, k, n :: Maps(t, c, k, n) <==> Maps(table, c, k, n) || (Pair(n, c) == pair && k in keys[..i])
      invariant t.Keys == table.Keys + if i > 0 then {pair.cluster} else {}
    {
      PutMaps(t, pair, keys[i]);
      assert keys[..i + 1] == keys[..i] + [keys[i]];
      t := Put(t, pair, keys[i]);
    }
    assert keys[..|keys|] == keys;
  }

  lemma PutMaps(t: map<string, Names>, pair: Pair, key: string)
    ensures forall c, k, n :: Maps(Put(t, pair, key), c, k, n) <==> Maps(t, c, k, n) || (Pair(n, c) == pair && k == key)
  {
  }

  /** `build_access_index` */
  method BuildAccessIndex(rows: seq<AnnotationRow>) returns (index: Index)
    ensures forall pair: Pair, key ::
              (pair.cluster in index && pair.namespace in NamespacesOf(index[pair.cluster].users, key))
              <==> Annotated(rows, false, pair, key)
    ensures forall pair: Pair, key ::
              (pair.cluster in index && pair.namespace in NamespacesOf(index[pair.cluster].groups, key))
              <==> Annotated(rows, true, pair, key)
  {
    var users: map<string, Names> := map[];
    var groups: map<string, Names> := map[];
    for i := 0 to |rows|
      invariant forall pair: Pair, k ::
        Maps(users, pair.cluster, k, pair.namespace) <==> Annotated(rows[..i], false, pair, k)
      invariant forall pair: Pair, k ::
        Maps(groups, pair.cluster, k, pair.namespace) <==> Annotated(rows[..i], true, pair, k)
    {
      var row := rows[i];
      assert rows[..i + 1] == rows[..i] + [row];
      ghost var oldUsers, oldGroups := users, groups;
      if Usable(row) {
        users := PutAll(users, row.pair, SplitNames(row.users));
        groups := PutAll(groups, row.pair, SplitNames(row.groups));
        AnnotatedNext(rows[..i], row, oldUsers, users, false);
        AnnotatedNext(rows[..i], row, oldGroups, groups, true);
      } else {
        AnnotatedSkip(rows[..i], row);
      }
    }
    assert rows[..|rows|] == rows;
    index := map cluster | cluster in users.Keys + groups.Keys ::
      ClusterAccess(ClusterNames(users, cluster), ClusterNames(groups, cluster));
  }

  lemma AnnotatedNext(
    before: seq<AnnotationRow>, row: AnnotationRow, t: map<string, Names>, t': map<string, Names>, groups: bool)
    requires Usable(row)
    requires forall pair: Pair, k :: Maps(t, pair.cluster, k, pair.namespace) <==> Annotated(before, groups, pair, k)
    requires forall c, k, n :: Maps(t', c, k, n) <==>
               Maps(t, c, k, n) || (Pair(n, c) == row.pair && k in SplitNames(if groups then row.groups else row.users))
    ensures forall pair: Pair, k ::
      Maps(t', pair.cluster, k, pair.namespace) <==> Annotated(before + [row], groups, pair, k)
  {
    forall pair: Pair, k
      ensures Maps(t', pair.cluster, k, pair.namespace) <==> Annotated(before + [row], groups, pair, k)
    {
      assert Pair(pair.namespace, pair.cluster) == pair;
      assert Maps(t', pair.cluster, k, pair.namespace) <==>
             Annotated(before, groups, pair, k)
             || (pair == row.pair && k in SplitNames(if groups then row.groups else row.users));
      assert row in before + [row];
    }
  }

  lemma AnnotatedSkip(before: seq<AnnotationRow>, row: AnnotationRow)
    requires !Usable(row)
    ensures forall groups, pair, k :: Annotated(before + [row], groups, pair, k) <==> Annotated(before, groups, pair, k)
  {
  }

  // ----- namespaces_for -----

  ghost predicate Listed(index: Index, peers: set<string>, username: string, groups: seq<string>, pair: Pair) {
    pair.cluster in peers && pair.cluster in index && Lists(index[pair.cluster], username, Keys(groups), pair.namespace)
  }

  /** The namespace is annotated for the user or one of the group keys. */
  ghost predicate Lists(access: ClusterAccess, username: string, keys: seq<string>, namespace: string) {
    namespace in NamespacesOf(access.users, Key(username))
    || exists g :: g in keys && namespace in NamespacesOf(access.groups, g)
  }

  function PairsOn(namespaces: set<string>, cluster: string): set<Pair> {
    set n | n in namespaces :: Pair(n, cluster)
  }

  lemma ListsNext(access: ClusterAccess, username: string, keys: seq<string>, i: nat, namespace: string)
    requires i < |keys|
    ensures Lists(access, username, keys[..i + 1], namespace) <==>
            Lists(access, username, keys[..i], namespace) || namespace in NamespacesOf(access.groups, keys[i])
  {
    assert keys[..i + 1] == keys[..i] + [keys[i]];
  }

  method ClusterPairs(
    access: ClusterAccess, cluster: string, username: string, keys: seq<string>) returns (pairs: set<Pair>)
    ensures forall p :: p in pairs <==> p.cluster == cluster && Lists(access, username, keys, p.namespace)
  {
    pairs := PairsOn(NamespacesOf(access.users, Key(username)), cluster);
    for i := 0 to |keys|
      invariant forall p :: p in pairs <==> p.cluster == cluster && Lists(access, username, keys[..i], p.namespace)
    {
      forall n ensures Lists(access, username, keys[..i + 1], n) <==>
                       Lists(access, username, keys[..i], n) || n in NamespacesOf(access.groups, keys[i]) {
        ListsNext(access, username, keys, i, n);
      }
      pairs := pairs + PairsOn(NamespacesOf(access.groups, keys[i]), cluster);
    }
    assert keys[..|keys|] == keys;
  }

  /** `namespaces_for` */
  method NamespacesFor(
    index: Index, peers: set<string>, username: string, groups: seq<string>) returns (list: seq<Pair>)
    ensures Sorted(list, ByCluster) && Distinct(list)
    ensures forall p :: p in list <==> Listed(index, peers, username, groups, p)
  {
    var pairs: set<Pair> := {};
    var rest := peers;
    while rest != {}
      invariant rest <= peers
      invariant forall p :: p in pairs <==> p.cluster !in rest && Listed(index, peers, username, groups, p)
      decreases rest
    {
      var cluster :| cluster in rest;
      if cluster in index {
        var more := ClusterPairs(index[cluster], cluster, username, Keys(groups));
        pairs := pairs + more;
      }
      rest := rest - {cluster};
    }
    list := ListPairs(pairs);
    assert forall p :: p in list <==> p in Elems(list);
    PairOrders();
    SortDistinctCanonical(list, ByCluster);
    assert forall p :: p in Sort(list, ByCluster) <==> p in Elems(Sort(list, ByCluster));
    list := Sort(list, ByCluster);
  }

  // ----- the whole resolution -----

  /** What the annotations grant, read straight off the rows. */
  ghost predicate Granted(
    rows: seq<AnnotationRow>, sets: seq<seq<string>>, origin: string, username: string, groups: seq<string>, pair: Pair)
  {
    IsPeer(origin, sets, pair.cluster)
    && exists r :: r in rows && Usable(r) && r.pair == pair && RowNames(r, username, groups)
  }

  /** The row names the user or one of the groups. */
  ghost predicate RowNames(r: AnnotationRow, username: string, groups: seq<string>) {
    Key(username) in SplitNames(r.users) || exists g :: g in groups && Strip(g) != [] && Key(g) in SplitNames(r.groups)
  }

  /** The comma-separated list names the user or group, whatever spaces and case surround it. */
  ghost predicate ListsName(raw: string, name: string) {
    |Strip(name)| > 0 && exists part :: part in Split(raw, ',') && Lower(Strip(part)) == Lower(Strip(name))
  }

  lemma NamesAreListed(raw: string, name: string)
    ensures Key(name) in SplitNames(raw) && |Strip(name)| > 0 <==> ListsName(raw, name)
    ensures |Strip(name)| == 0 ==> Key(name) !in SplitNames(raw)
  {
    var parts := Split(raw, ',');
    KeysMembers(parts, Key(name));
    PartNamed(parts, name);
    if raw == [] {
      NothingSplit(raw, name);
    }
  }

  lemma PartNamed(parts: seq<string>, name: string)
    ensures |Strip(name)| > 0 ==>
              (AnyNamed(parts, Key(name)) <==>
               exists part :: part in parts && Lower(Strip(part)) == Lower(Strip(name)))
    ensures |Strip(name)| == 0 ==> !AnyNamed(parts, Key(name))
  {
  }

  lemma NothingSplit(raw: string, name: string)
    requires raw == []
    ensures SplitNames(raw) == [] && !ListsName(raw, name)
  {
    assert Split(raw, ',') == [[]];
  }

  ghost predicate NamesUser(r: AnnotationRow, username: string, groups: seq<string>) {
    ListsName(r.users, username) || exists g :: g in groups && ListsName(r.groups, g)
  }

  lemma NamesIff(r: AnnotationRow, username: string, groups: seq<string>)
    ensures RowNames(r, username, groups) <==> NamesUser(r, username, groups)
  {
    NamesAreListed(r.users, username);
    forall g ensures Strip(g) != [] && Key(g) in SplitNames(r.groups) <==> ListsName(r.groups, g) {
      NamesAreListed(r.groups, g);
    }
  }

  /** In full: another cluster of an access set of the origin, and a row of the namespace that
      lists the user or one of the groups. */
  lemma GrantedIff(
    rows: seq<AnnotationRow>, sets: seq<seq<string>>, origin: string, username: string, groups: seq<string>, pair: Pair)
    ensures Granted(rows, sets, origin, username, groups, pair) <==>
      && |Strip(origin)| > 0 && pair.cluster != Strip(origin)
      && (exists s, a, b :: s in sets && a in s && b in s
            && Strip(a) == Strip(origin) && |Strip(b)| > 0 && Strip(b) == pair.cluster)
      && exists r :: r in rows && r.pair == pair && |pair.cluster| > 0 && |pair.namespace| > 0
           && NamesUser(r, username, groups)
  {
    PeerIff(origin, sets, pair.cluster);
    forall r ensures RowNames(r, username, groups) <==> NamesUser(r, username, groups) {
      NamesIff(r, username, groups);
    }
  }

  lemma PeerIff(origin: string, sets: seq<seq<string>>, cluster: string)
    ensures IsPeer(origin, sets, cluster) <==>
      && |Strip(origin)| > 0 && cluster != Strip(origin)
      && exists s, a, b :: s in sets && a in s && b in s
           && Strip(a) == Strip(origin) && |Strip(b)| > 0 && Strip(b) == cluster
  {
    if s :| s in sets && Strip(origin) in Stripped(s) && cluster in Stripped(s) {
      var a :| a in s && Strip(a) == Strip(origin);
      var b :| b in s && Strip(b) == cluster && Strip(b) != [];
    }
    if s, a, b :| s in sets && a in s && b in s && Strip(a) == Strip(origin) && |Strip(b)| > 0 && Strip(b) == cluster
                  && |Strip(origin)| > 0 {
      assert Strip(origin) in Stripped(s) && cluster in Stripped(s);
    }
  }

  /** Index and lookup together list exactly the granted pairs, sorted and once each. */
  method Resolve(
    rows: seq<AnnotationRow>, sets: seq<seq<string>>, origin: string, username: string, groups: seq<string>)
    returns (list: seq<Pair>)
    ensures Sorted(list, ByCluster) && Distinct(list)
    ensures forall p :: p in list <==> Granted(rows, sets, origin, username, groups, p)
  {
    var peers := PeerClusters(origin, sets);
    var index := BuildAccessIndex(rows);
    list := NamespacesFor(index, peers, username, groups);
    forall p ensures Listed(index, peers, username, groups, p) <==> Granted(rows, sets, origin, username, groups, p) {
      ListedIsGranted(index, peers, rows, sets, origin, username, groups, p);
    }
  }

  lemma ListedIsGranted(
    index: Index, peers: set<string>, rows: seq<AnnotationRow>, sets: seq<seq<string>>,
    origin: string, username: string, groups: seq<string>, p: Pair)
    requires forall c :: c in peers <==> IsPeer(origin, sets, c)
    requires forall key ::
      (p.cluster in index && p.namespace in NamespacesOf(index[p.cluster].users, key))
        <==> Annotated(rows, false, p, key)
    requires forall key ::
      (p.cluster in index && p.namespace in NamespacesOf(index[p.cluster].groups, key))
        <==> Annotated(rows, true, p, key)
    ensures Listed(index, peers, username, groups, p) <==> Granted(rows, sets, origin, username, groups, p)
  {
    if Listed(index, peers, username, groups, p) {
      if p.namespace in NamespacesOf(index[p.cluster].users, Key(username)) {
        assert Annotated(rows, false, p, Key(username));
      } else {
        var g :| g in Keys(groups) && p.namespace in NamespacesOf(index[p.cluster].groups, g);
        KeysMembers(groups, g);
        assert Annotated(rows, true, p, g);
      }
    }
    if Granted(rows, sets, origin, username, groups, p) {
      var r :| r in rows && Usable(r) && r.pair == p && RowNames(r, username, groups);
      if Key(username) in SplitNames(r.users) {
        assert Annotated(rows, false, p, Key(username));
      } else {
        var g :| g in groups && Strip(g) != [] && Key(g) in SplitNames(r.groups);
        KeysMembers(groups, Key(g));
        assert Annotated(rows, true, p, Key(g));
      }
    }
  }
}
