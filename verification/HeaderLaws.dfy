/** What the auth header injector resolves and forwards, told on its cache, its configuration
    and the token's owner (auth-header-injector/main.go). */
module HeaderLaws {
  import opened Wrappers
  import opened Text
  import opened Ordering
  import opened Pairs
  import opened HeaderCodec
  import opened HeaderInjector

  predicate IsFresh(c: Cache, now: int) {
    c.maxAge <= 0 || (c.fetchedAt != None && now <= c.fetchedAt.value + c.maxAge)
  }

  /** The cache lists the namespace for the user, or for one of the groups. */
  predicate UserHas(c: Cache, user: string, ns: string) {
    Lower(user) in c.userToNs && ns in c.userToNs[Lower(user)]
  }

  predicate GroupHas(c: Cache, group: string, ns: string) {
    Lower(Strip(group)) in c.groupToNs && ns in c.groupToNs[Lower(Strip(group))]
  }

  predicate SomeGroupHas(c: Cache, groups: seq<string>, ns: string) {
    exists g :: g in groups && GroupHas(c, g, ns)
  }

  lemma LastGroupHas(c: Cache, groups: seq<string>, last: string, ns: string)
    ensures SomeGroupHas(c, groups + [last], ns) <==> SomeGroupHas(c, groups, ns) || GroupHas(c, last, ns)
  {
    if SomeGroupHas(c, groups, ns) {
      var g :| g in groups && GroupHas(c, g, ns);
      assert g in groups + [last];
    }
    assert last in groups + [last];
  }

  lemma ListedIs(c: Cache, group: string, ns: string)
    ensures ns in Listed(c.groupToNs, Lower(Strip(group))) <==> GroupHas(c, group, ns)
  {
  }

  lemma ListingsLast(c: Cache, front: seq<string>, last: string)
    ensures GroupListings(c, front + [last]) ==
            GroupListings(c, front) + Listed(c.groupToNs, Lower(Strip(last)))
  {
    assert (front + [last])[..|front|] == front;
  }

  lemma ListingsStep(c: Cache, groups: seq<string>, front: seq<string>, last: string, ns: string)
    requires groups == front + [last]
    requires ns in GroupListings(c, front) <==> SomeGroupHas(c, front, ns)
    ensures ns in GroupListings(c, groups) <==> SomeGroupHas(c, groups, ns)
  {
    ListingsLast(c, front, last);
    ListedIs(c, last, ns);
    LastGroupHas(c, front, last, ns);
  }

  lemma NothingListed(c: Cache, ns: string)
    ensures ns !in GroupListings(c, []) && !SomeGroupHas(c, [], ns)
  {
  }

  lemma FrontAndLast(s: seq<string>)
    requires |s| > 0
    ensures s == s[..|s| - 1] + [s[|s| - 1]]
  {
  }

  lemma {:induction false} ListingsAre(c: Cache, groups: seq<string>, ns: string)
    ensures ns in GroupListings(c, groups) <==> SomeGroupHas(c, groups, ns)
    decreases |groups|
  {
    if |groups| > 0 {
      ListingsAre(c, groups[..|groups| - 1], ns);
      FrontAndLast(groups);
      ListingsStep(c, groups, groups[..|groups| - 1], groups[|groups| - 1], ns);
    } else {
      NothingListed(c, ns);
    }
  }

  /** The resolved namespaces: those of the user, as listed, and then those of the groups that
      are new; none from a cache that is too old. */
  lemma NamespacesAre(c: Cache, now: int, user: string, groups: seq<string>, ns: string)
    ensures ns in AllNamespaces(c, now, user, groups) <==>
            IsFresh(c, now) && (UserHas(c, user, ns) || SomeGroupHas(c, groups, ns))
    ensures IsFresh(c, now) && Lower(user) in c.userToNs ==>
              c.userToNs[Lower(user)] <= AllNamespaces(c, now, user, groups)
    ensures (Lower(user) in c.userToNs ==> Distinct(c.userToNs[Lower(user)])) ==>
              Distinct(AllNamespaces(c, now, user, groups))
  {
    ListingsAre(c, groups, ns);
  }

  /** Every namespace is sent in the handler's own cluster, in order. */
  lemma SentInOwnCluster(namespaces: seq<string>, cluster: string)
    ensures var pairs := PairsOf(namespaces, cluster);
      && |pairs| == |namespaces|
      && forall i :: 0 <= i < |namespaces| ==> pairs[i].namespace == namespaces[i] && pairs[i].cluster == cluster
  {
  }

  /** A known contact is one of a cache that is not too old. */
  lemma ContactIs(c: Cache, now: int, ns: string)
    ensures EmailForNamespace(c, now, ns) == if IsFresh(c, now) && ns in c.nsEmails then c.nsEmails[ns] else ""
  {
  }

  /** Everything for a member of a configured group, else the two lists. */
  lemma ListsAre(cfg: Config, c: Cache, now: int, user: string, groups: seq<string>)
    ensures var lists := Lists(cfg, c, now, user, groups);
      if exists g :: g in groups && Lower(Strip(g)) in cfg.allNamespacesGroups then lists == ("*", "")
      else
        var all := AllNamespaces(c, now, user, groups);
        && lists.0 == PrintList(PairsOf(all, cfg.clusterName), PrintPair)
        && lists.1 == PrintList(ContactsOf(c, now, all, cfg.clusterName), PrintContact)
  {
  }

  predicate SomePartIs(parts: seq<string>, g: string) {
    exists part :: part in parts && Strip(part) == g
  }

  lemma LastPartIs(parts: seq<string>, last: string, g: string)
    ensures SomePartIs(parts + [last], g) <==> SomePartIs(parts, g) || Strip(last) == g
  {
    if SomePartIs(parts, g) {
      var part :| part in parts && Strip(part) == g;
      assert part in parts + [last];
    }
    assert last in parts + [last];
  }

  lemma TrimmedLast(front: seq<string>, last: string)
    ensures TrimmedGroups(front + [last]) ==
            TrimmedGroups(front) + if |Strip(last)| > 0 then [Strip(last)] else []
  {
    assert (front + [last])[..|front|] == front;
  }

  lemma TrimmedStep(parts: seq<string>, front: seq<string>, last: string, g: string)
    requires parts == front + [last]
    requires g in TrimmedGroups(front) <==> |g| > 0 && SomePartIs(front, g)
    ensures g in TrimmedGroups(parts) <==> |g| > 0 && SomePartIs(parts, g)
  {
    TrimmedLast(front, last);
    LastPartIs(front, last, g);
  }

  lemma NothingTrimmed(g: string)
    ensures g !in TrimmedGroups([]) && !SomePartIs([], g)
  {
  }

  lemma {:induction false} TrimmedAre(parts: seq<string>, g: string)
    ensures g in TrimmedGroups(parts) <==> |g| > 0 && SomePartIs(parts, g)
    decreases |parts|
  {
    if |parts| > 0 {
      TrimmedAre(parts[..|parts| - 1], g);
      FrontAndLast(parts);
      TrimmedStep(parts, parts[..|parts| - 1], parts[|parts| - 1], g);
    } else {
      NothingTrimmed(g);
    }
  }

  /** The groups are those of the token's owner, or, when forwarded groups are trusted and the
      owner has none, the names of the forwarded list. */
  lemma GroupsAre(cfg: Config, info: UserInfo, inbound: string, g: string)
    ensures var groups := EffectiveGroups(cfg, info, inbound);
      if cfg.trustForwardedGroups && |inbound| > 0 && |info.groups| == 0 then
        g in groups <==> |g| > 0 && SomePartIs(Split(inbound, ','), g)
      else groups == info.groups
  {
    TrimmedAre(Split(inbound, ','), g);
  }

  /** What becomes of a request: nobody without a user, refused when the lookup fails, dropped
      when the client left, and otherwise forwarded for the user of the token. */
  lemma DecisionIs(cfg: Config, lookup: string -> Lookup, h: HeaderMap)
    ensures var d, user, token := Decide(cfg, lookup, h), Get(h, ForwardedUser), Get(h, AccessToken);
      if |user| == 0 then d == Anonymous
      else if |token| == 0 then
        d == Identified(user, NO_INFO, EffectiveGroups(cfg, NO_INFO, Get(h, Groups)))
      else match lookup(token)
        case Cancelled => d == Dropped
        case Failed => d == Unavailable
        case Found(info) => d == Identified(user, info, EffectiveGroups(cfg, info, Get(h, Groups)))
  {
  }

  /** The headers nobody but the handler writes, for a request without a user. */
  lemma AnonymousGetsNothing(cfg: Config, c: Cache, now: int, lookup: string -> Lookup, h: HeaderMap)
    requires |Get(h, ForwardedUser)| == 0
    ensures Upstream(cfg, c, now, lookup, h, FullName) == None && Upstream(cfg, c, now, lookup, h, Email) == None
    ensures Upstream(cfg, c, now, lookup, h, Cluster) == Some(cfg.clusterName)
    ensures Upstream(cfg, c, now, lookup, h, NamespaceList) == Some("")
    ensures Upstream(cfg, c, now, lookup, h, NamespaceEmails) == Some("")
    ensures Upstream(cfg, c, now, lookup, h, Groups) == Some("")
  {
  }

  /** The same headers for an identified user. */
  lemma IdentifiedGets(
    cfg: Config, c: Cache, now: int, lookup: string -> Lookup, h: HeaderMap, user: string, info: UserInfo,
    groups: seq<string>)
    requires Decide(cfg, lookup, h) == Identified(user, info, groups)
    ensures Upstream(cfg, c, now, lookup, h, FullName) == if |info.fullName| > 0 then Some(info.fullName) else None
    ensures Upstream(cfg, c, now, lookup, h, Email) ==
            if info.emailResolved && |info.email| > 0 then Some(info.email) else None
    ensures Upstream(cfg, c, now, lookup, h, Cluster) == Some(cfg.clusterName)
    ensures Upstream(cfg, c, now, lookup, h, NamespaceList) == Some(Lists(cfg, c, now, user, groups).0)
    ensures Upstream(cfg, c, now, lookup, h, NamespaceEmails) == Some(Lists(cfg, c, now, user, groups).1)
    ensures Upstream(cfg, c, now, lookup, h, Groups) ==
            if |groups| > 0 then Some(Join(groups, ','))
            else if cfg.trustForwardedGroups && Groups in h then Some(h[Groups])
            else None
  {
    var lists := Lists(cfg, c, now, user, groups);
    forall k ensures Upstream(cfg, c, now, lookup, h, k) == SentIdentified(cfg, info, groups, lists, h, k) {
      UpstreamOfIdentified(cfg, c, now, lookup, h, user, info, groups, k);
    }
    IdentifiedHeaders(cfg, info, groups, lists, h);
  }

  lemma IdentifiedHeaders(cfg: Config, info: UserInfo, groups: seq<string>, lists: (string, string), h: HeaderMap)
    ensures SentIdentified(cfg, info, groups, lists, h, FullName) ==
            if |info.fullName| > 0 then Some(info.fullName) else None
    ensures SentIdentified(cfg, info, groups, lists, h, Email) ==
            if info.emailResolved && |info.email| > 0 then Some(info.email) else None
    ensures SentIdentified(cfg, info, groups, lists, h, Cluster) == Some(cfg.clusterName)
    ensures SentIdentified(cfg, info, groups, lists, h, NamespaceList) == Some(lists.0)
    ensures SentIdentified(cfg, info, groups, lists, h, NamespaceEmails) == Some(lists.1)
    ensures SentIdentified(cfg, info, groups, lists, h, Groups) ==
            if |groups| > 0 then Some(Join(groups, ','))
            else if cfg.trustForwardedGroups && Groups in h then Some(h[Groups])
            else None
  {
  }

  /** All other headers pass as they came. */
  lemma OthersPass(cfg: Config, c: Cache, now: int, lookup: string -> Lookup, h: HeaderMap, k: Header)
    requires k == ForwardedUser || k == AccessToken || k.OtherHeader?
    requires Decide(cfg, lookup, h).Anonymous? || Decide(cfg, lookup, h).Identified?
    ensures Upstream(cfg, c, now, lookup, h, k) == if k in h then Some(h[k]) else None
  {
    var d := Decide(cfg, lookup, h);
    if d.Identified? {
      var lists := Lists(cfg, c, now, d.user, d.groups);
      UpstreamOfIdentified(cfg, c, now, lookup, h, d.user, d.info, d.groups, k);
      OthersAreKept(cfg, d.info, d.groups, lists, h, k);
    }
  }

  lemma OthersAreKept(
    cfg: Config, info: UserInfo, groups: seq<string>, lists: (string, string), h: HeaderMap, k: Header)
    requires k == ForwardedUser || k == AccessToken || k.OtherHeader?
    ensures SentIdentified(cfg, info, groups, lists, h, k) == if k in h then Some(h[k]) else None
  {
  }

  // ----- what the backend reads, entry by entry -----

  function NonEmptyPair(namespace: string, cluster: string): Option<Pair> {
    if |namespace| > 0 && |cluster| > 0 then Some(Pair(namespace, cluster)) else None
  }

  lemma SplitPairIs(s: string, a: string, b: string)
    requires s == a + (":" + b) && ':' !in a
    ensures SplitPair(s) == NonEmptyPair(Strip(a), Strip(b))
  {
    assert s[|a|] == ':' && s[..|a|] == a && s[|a| + 1..] == b;
    FindIs(s, ':', |a|);
  }

  /** An entry is the namespace before the first colon and the cluster after it, without the
      blanks around them; it is skipped when it has no colon or one of the two is blank. */
  lemma PairReadIs(raw: string, a: string, b: string)
    requires Strip(raw) == a + (":" + b) && ':' !in a
    ensures ParseEntry(raw) == NonEmptyPair(Strip(a), Strip(b))
  {
    SplitPairIs(Strip(raw), a, b);
  }

  lemma NoPairRead(raw: string)
    requires ':' !in Strip(raw)
    ensures ParseEntry(raw) == None
  {
  }

  /** A contact is a pair before the last equals sign and an email after it. */
  lemma ContactReadIs(raw: string, a: string, b: string, email: string)
    requires Strip(raw) == (a + (":" + b)) + ("=" + email) && ':' !in a && '=' !in email
    ensures ParseContact(raw) ==
            match NonEmptyPair(Strip(a), Strip(b))
            case Some(p) => if |Strip(email)| > 0 then Some(Contact(p, Strip(email))) else None
            case None => None
  {
    SplitPairIs(a + (":" + b), a, b);
    SplitContactIs(Strip(raw), a + (":" + b), email, NonEmptyPair(Strip(a), Strip(b)));
  }

  lemma SplitContactIs(s: string, front: string, email: string, pair: Option<Pair>)
    requires s == front + ("=" + email) && '=' !in email && SplitPair(front) == pair
    ensures SplitContact(s) ==
            match pair
            case Some(p) => if |Strip(email)| > 0 then Some(Contact(p, Strip(email))) else None
            case None => None
  {
    LastEquals(s, front, email);
  }

  lemma NoContactRead(raw: string, a: string, email: string)
    requires Strip(raw) == a + ("=" + email) && '=' !in email && ':' !in a
    ensures ParseContact(raw) == None
  {
    SplitContactIs(Strip(raw), a, email, None);
  }

  lemma LastEquals(s: string, a: string, email: string)
    requires s == a + ("=" + email) && '=' !in email
    ensures FindLast(s, '=') == |a| && s[..|a|] == a && s[|a| + 1..] == email
  {
    assert s[|a|] == '=';
    forall i | |a| < i < |s| ensures s[i] != '=' {
      assert s[i] == email[i - |a| - 1];
    }
  }
}
