/** The auth header injector's request handler (auth-header-injector/main.go): which
    headers reach the backend, and what a client can influence. */
module HeaderInjector {
  import opened Wrappers
  import opened Text
  import opened Ordering
  import opened Pairs
  import opened HeaderCodec

  // ----- the injector's handler -----

  datatype Header =
    | ForwardedUser | AccessToken | FullName | Email | Cluster | NamespaceList | NamespaceEmails | Groups
    | OtherHeader(name: string)

  type HeaderMap = map<Header, string>

  function Value(h: HeaderMap, k: Header): Option<string> {
    if k in h then Some(h[k]) else None
  }

  /** An absent header reads as the empty string. */
  function Get(h: HeaderMap, k: Header): string {
    if Value(h, k).Some? then Value(h, k).value else ""
  }

  datatype Config = Config(clusterName: string, allNamespacesGroups: set<string>, trustForwardedGroups: bool)

  /** `maxAge` 0 disables the staleness check. */
  datatype Cache = Cache(
    userToNs: map<string, seq<string>>, groupToNs: map<string, seq<string>>, nsEmails: map<string, string>,
    fetchedAt: Option<int>, maxAge: int)

  predicate CacheUsable(c: Cache, now: int) {
    c.maxAge <= 0 || (c.fetchedAt.Some? && now - c.fetchedAt.value <= c.maxAge)
  }

  function Listed(names: map<string, seq<string>>, key: string): seq<string> {
    if key in names then names[key] else []
  }

  function NamespacesForUser(c: Cache, now: int, user: string): seq<string> {
    if CacheUsable(c, now) then Listed(c.userToNs, Lower(user)) else []
  }

  function GroupListings(c: Cache, groups: seq<string>): seq<string> {
    if groups == [] then []
    else GroupListings(c, groups[..|groups| - 1]) + Listed(c.groupToNs, Lower(Strip(groups[|groups| - 1])))
  }

  /** `base` followed by the names of `extra` not met before. */
  function MergeNew(base: seq<string>, extra: seq<string>): (r: seq<string>)
    ensures base <= r && (Distinct(base) ==> Distinct(r))
    ensures forall x :: x in r <==> x in base || x in extra
  {
    if extra == [] then base
    else
      var n := |extra| - 1;
      assert extra == extra[..n] + [extra[n]];
      var r := MergeNew(base, extra[..n]);
      if extra[n] in r then r else r + [extra[n]]
  }

  method AppendNew(base: seq<string>, extra: seq<string>) returns (r: seq<string>)
    ensures r == MergeNew(base, extra)
  {
    var seen := set x | x in base;
    r := base;
    for i := 0 to |extra|
      invariant r == MergeNew(base, extra[..i])
      invariant forall x :: x in seen <==> x in r
    {
      assert extra[..i + 1][..i] == extra[..i];
      if extra[i] !in seen {
        seen := seen + {extra[i]};
        r := r + [extra[i]];
      }
    }
    assert extra[..|extra|] == extra;
  }

  function NamespacesForGroups(c: Cache, now: int, groups: seq<string>): seq<string> {
    if CacheUsable(c, now) then MergeNew([], GroupListings(c, groups)) else []
  }

  function EmailForNamespace(c: Cache, now: int, ns: string): string {
    if CacheUsable(c, now) && ns in c.nsEmails then c.nsEmails[ns] else ""
  }

  datatype UserInfo = UserInfo(groups: seq<string>, fullName: string, email: string, emailResolved: bool)

  /** What looking up the access token gives: cached or fetched information, a failure, or
      a client that went away. */
  datatype Lookup = Found(info: UserInfo) | Failed | Cancelled

  const NO_INFO := UserInfo([], "", "", false)

  /** Non-empty trimmed groups of a forwarded header. */
  function TrimmedGroups(parts: seq<string>): seq<string> {
    if parts == [] then []
    else
      var n := |parts| - 1;
      var name := Strip(parts[n]);
      TrimmedGroups(parts[..n]) + if name != "" then [name] else []
  }

  lemma TrimmedNext(parts: seq<string>, i: nat)
    requires i < |parts|
    ensures var name := Strip(parts[i]);
      TrimmedGroups(parts[..i + 1]) == if |name| > 0 then TrimmedGroups(parts[..i]) + [name]
      else TrimmedGroups(parts[..i])
  {
    assert parts[..i + 1][..i] == parts[..i];
  }

  /** The groups the handler works with. */
  function EffectiveGroups(cfg: Config, info: UserInfo, inbound: string): seq<string> {
    if cfg.trustForwardedGroups && inbound != [] && info.groups == [] then TrimmedGroups(Split(inbound, ','))
    else info.groups
  }

  predicate IsWildcard(cfg: Config, groups: seq<string>) {
    exists g :: g in groups && Lower(Strip(g)) in cfg.allNamespacesGroups
  }

  function AllNamespaces(c: Cache, now: int, user: string, groups: seq<string>): seq<string> {
    MergeNew(NamespacesForUser(c, now, user), NamespacesForGroups(c, now, groups))
  }

  function PairsOf(namespaces: seq<string>, cluster: string): seq<Pair> {
    seq(|namespaces|, i requires 0 <= i < |namespaces| => Pair(namespaces[i], cluster))
  }

  function ContactsOf(c: Cache, now: int, namespaces: seq<string>, cluster: string): seq<Contact> {
    if namespaces == [] then []
    else
      var n := |namespaces| - 1;
      ContactsOf(c, now, namespaces[..n], cluster)
      + (var email := EmailForNamespace(c, now, namespaces[n]);
         if email != "" then [Contact(Pair(namespaces[n], cluster), email)] else [])
  }

  function Printed(c: Cache, now: int, namespaces: seq<string>, cluster: string): (string, string) {
    (PrintList(PairsOf(namespaces, cluster), PrintPair),
     PrintList(ContactsOf(c, now, namespaces, cluster), PrintContact))
  }

  /** The namespace and contact headers: everything for a wildcard group, else the lists. */
  function Lists(cfg: Config, cache: Cache, now: int, user: string, groups: seq<string>): (string, string) {
    if IsWildcard(cfg, groups) then ("*", "")
    else Printed(cache, now, AllNamespaces(cache, now, user, groups), cfg.clusterName)
  }

  method HasWildcard(cfg: Config, groups: seq<string>) returns (found: bool)
    ensures found == IsWildcard(cfg, groups)
  {
    for i := 0 to |groups|
      invariant !IsWildcard(cfg, groups[..i])
    {
      assert groups[..i + 1] == groups[..i] + [groups[i]];
      if Lower(Strip(groups[i])) in cfg.allNamespacesGroups {
        return true;
      }
    }
    assert groups[..|groups|] == groups;
    return false;
  }

  /** The two list headers of names in the handler's own cluster. */
  method PrintLists(c: Cache, now: int, namespaces: seq<string>, cluster: string) returns (lists: (string, string))
    ensures lists == Printed(c, now, namespaces, cluster)
  {
    var pairs: seq<Pair>, contacts: seq<Contact> := [], [];
    for i := 0 to |namespaces|
      invariant pairs == PairsOf(namespaces[..i], cluster)
      invariant contacts == ContactsOf(c, now, namespaces[..i], cluster)
    {
      assert namespaces[..i + 1][..i] == namespaces[..i];
      pairs := pairs + [Pair(namespaces[i], cluster)];
      var email := EmailForNamespace(c, now, namespaces[i]);
      if email != "" {
        contacts := contacts + [Contact(Pair(namespaces[i], cluster), email)];
      }
    }
    assert namespaces[..|namespaces|] == namespaces;
    return (PrintList(pairs, PrintPair), PrintList(contacts, PrintContact));
  }

  method NamespaceHeaders(
    cfg: Config, cache: Cache, now: int, user: string, groups: seq<string>) returns (lists: (string, string))
    ensures lists == Lists(cfg, cache, now, user, groups)
  {
    var wildcard := HasWildcard(cfg, groups);
    if wildcard {
      return ("*", "");
    }
    var namespaces := AppendNew(NamespacesForUser(cache, now, user), NamespacesForGroups(cache, now, groups));
    lists := PrintLists(cache, now, namespaces, cfg.clusterName);
  }

  /** What the handler makes of a request before it writes the lists. */
  datatype Decision = Anonymous | Dropped | Unavailable | Identified(user: string, info: UserInfo, groups: seq<string>)

  function InfoFor(lookup: string -> Lookup, token: string): Lookup {
    if token == "" then Found(NO_INFO) else lookup(token)
  }

  function Decide(cfg: Config, lookup: string -> Lookup, h: HeaderMap): Decision {
    var user := Get(h, ForwardedUser);
    if user == "" then Anonymous
    else
      match InfoFor(lookup, Get(h, AccessToken))
      case Cancelled => Dropped
      case Failed => Unavailable
      case Found(info) => Identified(user, info, EffectiveGroups(cfg, info, Get(h, Groups)))
  }

  /** The headers the backend trusts. */
  const PROTECTED: set<Header> := {FullName, Email, Cluster, NamespaceList, NamespaceEmails, Groups}

  function NonEmpty(s: string): Option<string> {
    if s != "" then Some(s) else None
  }

  /** The groups sent upstream: an inbound header survives only when trusted and none came
      out of it or of the token. */
  function SentGroups(cfg: Config, groups: seq<string>, inbound: Option<string>): Option<string> {
    if groups != [] then Some(Join(groups, ',')) else if cfg.trustForwardedGroups then inbound else None
  }

  /** Header `k` of an identified user's request once it is sent upstream. */
  function SentIdentified(
    cfg: Config, info: UserInfo, groups: seq<string>, lists: (string, string), h: HeaderMap, k: Header)
    : Option<string>
  {
    match k
    case FullName => NonEmpty(info.fullName)
    case Email => if info.emailResolved then NonEmpty(info.email) else None
    case Cluster => Some(cfg.clusterName)
    case NamespaceList => Some(lists.0)
    case NamespaceEmails => Some(lists.1)
    case Groups => SentGroups(cfg, groups, Value(h, Groups))
    case _ => Value(h, k)
  }

  /** Before anything is known of the user. */
  function Prepared(cfg: Config, h: HeaderMap, k: Header): Option<string> {
    match k
    case FullName | Email => None
    case Cluster => Some(cfg.clusterName)
    case _ => Value(h, k)
  }

  function SentAnonymous(cfg: Config, h: HeaderMap, k: Header): Option<string> {
    match k
    case FullName | Email => None
    case Cluster => Some(cfg.clusterName)
    case NamespaceList | NamespaceEmails | Groups => Some("")
    case _ => Value(h, k)
  }

  /** Header `k` as the backend receives it, `None` too when nothing is forwarded. */
  function Upstream(
    cfg: Config, cache: Cache, now: int, lookup: string -> Lookup, h: HeaderMap, k: Header): Option<string>
  {
    match Decide(cfg, lookup, h)
    case Anonymous => SentAnonymous(cfg, h, k)
    case Identified(user, info, groups) => SentIdentified(cfg, info, groups, Lists(cfg, cache, now, user, groups), h, k)
    case _ => None
  }

  predicate IsListHeader(k: Header) {
    k.NamespaceList? || k.NamespaceEmails? || k.Groups?
  }

  lemma UpstreamOfIdentified(cfg: Config, cache: Cache, now: int, lookup: string -> Lookup, h: HeaderMap,
                             user: string, info: UserInfo, groups: seq<string>, k: Header)
    requires Decide(cfg, lookup, h) == Identified(user, info, groups)
    ensures Upstream(cfg, cache, now, lookup, h, k)
            == SentIdentified(cfg, info, groups, Lists(cfg, cache, now, user, groups), h, k)
  {
  }

  lemma SentWithLists(cfg: Config, info: UserInfo, groups: seq<string>, lists: (string, string), h: HeaderMap,
                      before: HeaderMap, after: HeaderMap)
    requires forall k :: !IsListHeader(k) ==> Value(before, k) == SentIdentified(cfg, info, groups, ("", ""), h, k)
    requires forall k :: !IsListHeader(k) ==> Value(after, k) == Value(before, k)
    requires Value(after, NamespaceList) == Some(lists.0) && Value(after, NamespaceEmails) == Some(lists.1)
    requires Value(after, Groups) == SentGroups(cfg, groups, Value(h, Groups))
    ensures forall k :: Value(after, k) == SentIdentified(cfg, info, groups, lists, h, k)
  {
  }

  /** The in-flight request, whose headers the handler rewrites in place. */
  class Request {
    var headers: HeaderMap

    constructor (h: HeaderMap)
      ensures headers == h
    {
      headers := h;
    }

    method Set(k: Header, v: string)
      modifies this
      ensures forall j :: Value(headers, j) == if j == k then Some(v) else Value(old(headers), j)
    {
      headers := headers[k := v];
    }

    method Del(k: Header)
      modifies this
      ensures forall j :: Value(headers, j) == if j == k then None else Value(old(headers), j)
    {
      headers := headers - {k};
    }

    /** `newProxyHandler`: the headers change only as `Upstream` says. */
    method Handle(cfg: Config, cache: Cache, now: int, lookup: string -> Lookup) returns (decision: Decision)
      modifies this
      ensures decision == Decide(cfg, lookup, old(headers))
      ensures decision.Anonymous? || decision.Identified? ==>
        forall k :: Value(headers, k) == Upstream(cfg, cache, now, lookup, old(headers), k)
    {
      Del(FullName);
      Del(Email);
      Set(Cluster, cfg.clusterName);
      var user := Get(headers, ForwardedUser);
      if user == "" {
        WriteLists(("", ""), Some(""));
        return Anonymous;
      }
      var info := NO_INFO;
      var token := Get(headers, AccessToken);
      if token != "" {
        match lookup(token) {
          case Cancelled => return Dropped;
          case Failed => return Unavailable;
          case Found(i) => info := i;
        }
      }
      var groups := Serve(cfg, cache, now, user, info, old(headers));
      forall k {:trigger Value(headers, k)}
        ensures Value(headers, k) == Upstream(cfg, cache, now, lookup, old(headers), k)
      {
        UpstreamOfIdentified(cfg, cache, now, lookup, old(headers), user, info, groups, k);
      }
      return Identified(user, info, groups);
    }

    /** The writes for an identified user. */
    method Serve(
      cfg: Config, cache: Cache, now: int, user: string, info: UserInfo, ghost h: HeaderMap)
      returns (groups: seq<string>)
      requires forall k :: Value(headers, k) == Prepared(cfg, h, k)
      modifies this
      ensures groups == EffectiveGroups(cfg, info, Get(h, Groups))
      ensures forall k ::
        Value(headers, k) == SentIdentified(cfg, info, groups, Lists(cfg, cache, now, user, groups), h, k)
    {
      groups := WriteIdentity(cfg, info, h);
      ghost var resolved := headers;
      var lists := NamespaceHeaders(cfg, cache, now, user, groups);
      WriteLists(lists, if |groups| > 0 then Some(Join(groups, ',')) else None);
      SentWithLists(cfg, info, groups, lists, h, resolved, headers);
    }

    /** The list headers, and the groups when there are any to send. */
    method WriteLists(lists: (string, string), groups: Option<string>)
      modifies this
      ensures Value(headers, NamespaceList) == Some(lists.0) && Value(headers, NamespaceEmails) == Some(lists.1)
      ensures Value(headers, Groups) == if groups.Some? then groups else Value(old(headers), Groups)
      ensures forall k :: !IsListHeader(k) ==> Value(headers, k) == Value(old(headers), k)
    {
      Set(NamespaceList, lists.0);
      Set(NamespaceEmails, lists.1);
      if groups.Some? {
        Set(Groups, groups.value);
      }
    }

    /** The full name, email and groups of the token's owner. */
    method WriteIdentity(cfg: Config, info: UserInfo, ghost h: HeaderMap) returns (groups: seq<string>)
      requires forall k :: Value(headers, k) == Prepared(cfg, h, k)
      modifies this
      ensures groups == EffectiveGroups(cfg, info, Get(h, Groups))
      ensures forall k :: !IsListHeader(k) ==>
        Value(headers, k) == SentIdentified(cfg, info, groups, ("", ""), h, k)
      ensures Value(headers, Groups) == SentGroups(cfg, [], Value(h, Groups))
    {
      if info.fullName != "" {
        Set(FullName, info.fullName);
      }
      if info.emailResolved && info.email != "" {
        Set(Email, info.email);
      }
      groups := ResolveGroups(cfg, info, Get(headers, Groups));
      if !cfg.trustForwardedGroups {
        Del(Groups);
      }
    }

    method ResolveGroups(cfg: Config, info: UserInfo, inbound: string) returns (groups: seq<string>)
      ensures groups == EffectiveGroups(cfg, info, inbound)
    {
      groups := info.groups;
      if cfg.trustForwardedGroups && inbound != "" && |groups| == 0 {
        groups := TrustedGroups(inbound);
      }
    }

    /** Non-empty trimmed groups of a trusted inbound header. */
    method TrustedGroups(inbound: string) returns (groups: seq<string>)
      ensures groups == TrimmedGroups(Split(inbound, ','))
    {
      groups := [];
      var parts := Split(inbound, ',');
      for i := 0 to |parts|
        invariant groups == TrimmedGroups(parts[..i])
      {
        TrimmedNext(parts, i);
        var name := Strip(parts[i]);
        if |name| > 0 {
          groups := groups + [name];
        }
      }
      assert parts[..|parts|] == parts;
    }
  }

  // ----- what a client can influence -----

  predicate IsFrom(h: HeaderMap, user: string, token: string) {
    Get(h, ForwardedUser) == user && Get(h, AccessToken) == token
  }

  predicate SameProtected(cfg: Config, cache: Cache, now: int, lookup: string -> Lookup, a: HeaderMap, b: HeaderMap) {
    forall k :: k in PROTECTED ==> Upstream(cfg, cache, now, lookup, a, k) == Upstream(cfg, cache, now, lookup, b, k)
  }

  /** What a client sends beside its user and token cannot matter to protected headers. */
  ghost predicate ClientCannotInfluence(
    cfg: Config, cache: Cache, now: int, lookup: string -> Lookup, user: string, token: string)
  {
    forall a, b :: IsFrom(a, user, token) && IsFrom(b, user, token) ==> SameProtected(cfg, cache, now, lookup, a, b)
  }

  /** The only opening: forwarded groups are trusted and none were resolved. */
  predicate FallsBackToInbound(cfg: Config, lookup: string -> Lookup, user: string, token: string) {
    cfg.trustForwardedGroups && user != "" && InfoFor(lookup, token).Found? && InfoFor(lookup, token).info.groups == []
  }

  lemma RewriteIgnoresInbound(cfg: Config, cache: Cache, now: int, lookup: string -> Lookup, user: string,
                              token: string, a: HeaderMap, b: HeaderMap)
    requires IsFrom(a, user, token) && IsFrom(b, user, token) && !FallsBackToInbound(cfg, lookup, user, token)
    ensures SameProtected(cfg, cache, now, lookup, a, b)
  {
    SameDecision(cfg, lookup, user, token, a, b);
    var d := Decide(cfg, lookup, a);
    forall k | k in PROTECTED
      ensures Upstream(cfg, cache, now, lookup, a, k) == Upstream(cfg, cache, now, lookup, b, k)
    {
      if d.Identified? {
        UpstreamOfIdentified(cfg, cache, now, lookup, a, d.user, d.info, d.groups, k);
        UpstreamOfIdentified(cfg, cache, now, lookup, b, d.user, d.info, d.groups, k);
        SameSent(cfg, d.info, d.groups, Lists(cfg, cache, now, d.user, d.groups), a, b, k);
      }
    }
  }

  lemma SameSent(
    cfg: Config, info: UserInfo, groups: seq<string>, lists: (string, string), a: HeaderMap, b: HeaderMap, k: Header)
    requires k in PROTECTED && (cfg.trustForwardedGroups ==> groups != [])
    ensures SentIdentified(cfg, info, groups, lists, a, k) == SentIdentified(cfg, info, groups, lists, b, k)
  {
  }

  lemma SameDecision(cfg: Config, lookup: string -> Lookup, user: string, token: string, a: HeaderMap, b: HeaderMap)
    requires IsFrom(a, user, token) && IsFrom(b, user, token) && !FallsBackToInbound(cfg, lookup, user, token)
    ensures Decide(cfg, lookup, a) == Decide(cfg, lookup, b)
    ensures var d := Decide(cfg, lookup, a); d.Identified? && cfg.trustForwardedGroups ==> d.groups != []
  {
  }

  /** Two requests that differ only in the inbound group header. */
  lemma FallbackIsInfluence(cfg: Config, cache: Cache, now: int, lookup: string -> Lookup, user: string, token: string,
                            bare: HeaderMap, named: HeaderMap)
    requires FallsBackToInbound(cfg, lookup, user, token)
    requires IsFrom(bare, user, token) && IsFrom(named, user, token) && Groups !in bare && Groups in named
    ensures Upstream(cfg, cache, now, lookup, bare, Groups).None?
    ensures Upstream(cfg, cache, now, lookup, named, Groups).Some?
    ensures !SameProtected(cfg, cache, now, lookup, bare, named)
  {
    assert Groups in PROTECTED;
  }

  /** Identity, namespace and group headers are a function of the user, the resolved
      information, the cache and the configuration exactly when the handler does not fall
      back to the inbound groups. */
  lemma ClientCannotInfluenceIff(
    cfg: Config, cache: Cache, now: int, lookup: string -> Lookup, user: string, token: string)
    ensures ClientCannotInfluence(cfg, cache, now, lookup, user, token)
            <==> !FallsBackToInbound(cfg, lookup, user, token)
  {
    if FallsBackToInbound(cfg, lookup, user, token) {
      var bare: HeaderMap := map[ForwardedUser := user, AccessToken := token];
      FallbackIsInfluence(cfg, cache, now, lookup, user, token, bare, bare[Groups := token]);
    } else {
      forall a, b | IsFrom(a, user, token) && IsFrom(b, user, token)
        ensures SameProtected(cfg, cache, now, lookup, a, b)
      {
        RewriteIgnoresInbound(cfg, cache, now, lookup, user, token, a, b);
      }
    }
  }

  lemma ListIsPrinted(cfg: Config, cache: Cache, now: int, user: string, groups: seq<string>)
    requires !IsWildcard(cfg, groups)
    ensures Lists(cfg, cache, now, user, groups).0
            == PrintList(PairsOf(AllNamespaces(cache, now, user, groups), cfg.clusterName), PrintPair)
  {
  }

  /** Outside the wildcard, the backend reads from the rewritten header exactly the
      namespaces the handler resolved iff their names are clean. */
  lemma BackendReadsResolved(cfg: Config, cache: Cache, now: int, lookup: string -> Lookup, h: HeaderMap,
                             user: string, info: UserInfo, groups: seq<string>, pairs: seq<Pair>, sent: string)
    requires Decide(cfg, lookup, h) == Identified(user, info, groups) && !IsWildcard(cfg, groups)
    requires pairs == PairsOf(AllNamespaces(cache, now, user, groups), cfg.clusterName)
    requires Upstream(cfg, cache, now, lookup, h, NamespaceList) == Some(sent)
    ensures ParseList(sent, ParseEntry) == pairs <==> forall p :: p in pairs ==> CleanPair(p)
  {
    ListIsSent(cfg, cache, now, lookup, h, user, info, groups, sent);
    NamespacesRoundTripIff(pairs);
  }

  lemma ListIsSent(cfg: Config, cache: Cache, now: int, lookup: string -> Lookup, h: HeaderMap,
                   user: string, info: UserInfo, groups: seq<string>, sent: string)
    requires Decide(cfg, lookup, h) == Identified(user, info, groups) && !IsWildcard(cfg, groups)
    requires Upstream(cfg, cache, now, lookup, h, NamespaceList) == Some(sent)
    ensures sent == PrintList(PairsOf(AllNamespaces(cache, now, user, groups), cfg.clusterName), PrintPair)
  {
    ListIsPrinted(cfg, cache, now, user, groups);
    UpstreamOfIdentified(cfg, cache, now, lookup, h, user, info, groups, NamespaceList);
    ListsOfIdentified(cfg, info, groups, Lists(cfg, cache, now, user, groups), h);
  }

  lemma ContactsArePrinted(cfg: Config, cache: Cache, now: int, user: string, groups: seq<string>)
    requires !IsWildcard(cfg, groups)
    ensures Lists(cfg, cache, now, user, groups).1
            == PrintList(ContactsOf(cache, now, AllNamespaces(cache, now, user, groups), cfg.clusterName), PrintContact)
  {
  }

  lemma ContactsAreSent(cfg: Config, cache: Cache, now: int, lookup: string -> Lookup, h: HeaderMap,
                        user: string, info: UserInfo, groups: seq<string>, sent: string)
    requires Decide(cfg, lookup, h) == Identified(user, info, groups) && !IsWildcard(cfg, groups)
    requires Upstream(cfg, cache, now, lookup, h, NamespaceEmails) == Some(sent)
    ensures sent ==
            PrintList(ContactsOf(cache, now, AllNamespaces(cache, now, user, groups), cfg.clusterName), PrintContact)
  {
    ContactsArePrinted(cfg, cache, now, user, groups);
    UpstreamOfIdentified(cfg, cache, now, lookup, h, user, info, groups, NamespaceEmails);
    ListsOfIdentified(cfg, info, groups, Lists(cfg, cache, now, user, groups), h);
  }

  lemma ListsOfIdentified(cfg: Config, info: UserInfo, groups: seq<string>, lists: (string, string), h: HeaderMap)
    ensures SentIdentified(cfg, info, groups, lists, h, NamespaceList) == Some(lists.0)
    ensures SentIdentified(cfg, info, groups, lists, h, NamespaceEmails) == Some(lists.1)
  {
  }

  /** Likewise for the contacts: exactly the known emails of those namespaces iff names and
      emails are clean. */
  lemma BackendReadsContacts(cfg: Config, cache: Cache, now: int, lookup: string -> Lookup, h: HeaderMap,
                             user: string, info: UserInfo, groups: seq<string>, contacts: seq<Contact>, sent: string)
    requires Decide(cfg, lookup, h) == Identified(user, info, groups) && !IsWildcard(cfg, groups)
    requires contacts == ContactsOf(cache, now, AllNamespaces(cache, now, user, groups), cfg.clusterName)
    requires Upstream(cfg, cache, now, lookup, h, NamespaceEmails) == Some(sent)
    ensures ParseList(sent, ParseContact) == contacts <==> forall c :: c in contacts ==> CleanContact(c)
  {
    ContactsAreSent(cfg, cache, now, lookup, h, user, info, groups, sent);
    EmailsRoundTripIff(contacts);
  }

  /** The contacts sent are exactly those of the resolved namespaces with a known email. */
  lemma {:induction false} ContactsAreKnown(
    c: Cache, now: int, namespaces: seq<string>, cluster: string, contact: Contact)
    ensures contact in ContactsOf(c, now, namespaces, cluster) <==>
            contact.pair.namespace in namespaces && contact.pair.cluster == cluster
            && contact.email != "" && contact.email == EmailForNamespace(c, now, contact.pair.namespace)
  {
    if namespaces != [] {
      var n := |namespaces| - 1;
      assert namespaces == namespaces[..n] + [namespaces[n]];
      ContactsAreKnown(c, now, namespaces[..n], cluster, contact);
    }
  }
}
