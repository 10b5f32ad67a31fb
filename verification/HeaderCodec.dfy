/** The forwarded list headers: printed by the auth header injector
    (auth-header-injector/main.go), parsed by the backend (backend/app/auth/middleware.py). */
module HeaderCodec {
  import opened Wrappers
  import opened Text
  import opened Ordering
  import opened Pairs

  // ----- comma-separated lists -----

  function PrintAll<T>(items: seq<T>, print_: T -> string): seq<string> {
    seq(|items|, i requires 0 <= i < |items| => print_(items[i]))
  }

  /** `strings.Join(..., ",")` */
  function PrintList<T>(items: seq<T>, print_: T -> string): string {
    Join(PrintAll(items, print_), ',')
  }

  function ParseAll<T>(entries: seq<string>, parse: string -> Option<T>): seq<T> {
    if entries == [] then []
    else
      var n := |entries| - 1;
      ParseAll(entries[..n], parse) + match parse(entries[n]) case Some(x) => [x] case None => []
  }

  /** Entries of a non-blank header, malformed ones skipped. */
  function ParseList<T>(raw: string, parse: string -> Option<T>): seq<T> {
    if Strip(raw) == [] then [] else ParseAll(Split(raw, ','), parse)
  }

  /** The printed item is one non-blank entry that parses back. */
  predicate Survives<T(==)>(x: T, print_: T -> string, parse: string -> Option<T>) {
    parse(print_(x)) == Some(x) && ',' !in print_(x) && print_(x) != [] && IsStripped(print_(x))
  }

  lemma {:induction false} ParsePrinted<T>(items: seq<T>, print_: T -> string, parse: string -> Option<T>)
    requires forall x :: x in items ==> Survives(x, print_, parse)
    ensures ParseAll(PrintAll(items, print_), parse) == items
  {
    if items != [] {
      var n := |items| - 1;
      ParsePrinted(items[..n], print_, parse);
      assert PrintAll(items, print_)[..n] == PrintAll(items[..n], print_);
      assert Survives(items[n], print_, parse);
      assert items[..n] + [items[n]] == items;
    }
  }

  /** A text that starts with something other than a space is not blank. */
  lemma {:induction false} NotBlank(s: string)
    requires s != [] && !IsSpace(s[0])
    ensures StripRight(s) != []
    ensures Strip(s) != []
  {
    assert StripLeft(s) == s;
    if |s| > 1 && IsSpace(s[|s| - 1]) {
      NotBlank(s[..|s| - 1]);
    }
  }

  lemma ListRoundTrip<T(!new)>(items: seq<T>, print_: T -> string, parse: string -> Option<T>)
    requires forall x :: x in items ==> Survives(x, print_, parse)
    ensures ParseList(PrintList(items, print_), parse) == items
  {
    if items != [] {
      var printed := PrintAll(items, print_);
      assert Survives(items[0], print_, parse);
      assert PrintList(items, print_)[0] == printed[0][0];
      NotBlank(PrintList(items, print_));
      forall e | e in printed ensures ',' !in e {
        var i :| 0 <= i < |printed| && printed[i] == e;
        assert Survives(items[i], print_, parse);
      }
      SplitJoin(printed, ',');
      ParsePrinted(items, print_, parse);
    }
  }

  /** Whatever is parsed from entries without commas has the property of one such entry. */
  lemma {:induction false} AllParsed<T(!new)>(entries: seq<string>, parse: string -> Option<T>, clean: T -> bool)
    requires forall e :: e in entries ==> ',' !in e
    requires forall e :: ',' !in e && parse(e).Some? ==> clean(parse(e).value)
    ensures forall x :: x in ParseAll(entries, parse) ==> clean(x)
  {
    if entries != [] {
      AllParsed(entries[..|entries| - 1], parse, clean);
      assert entries[|entries| - 1] in entries;
    }
  }

  lemma ListParsed<T(!new)>(raw: string, parse: string -> Option<T>, clean: T -> bool)
    requires forall e :: ',' !in e && parse(e).Some? ==> clean(parse(e).value)
    ensures forall x :: x in ParseList(raw, parse) ==> clean(x)
  {
    SplitParts(raw, ',');
    AllParsed(Split(raw, ','), parse, clean);
  }

  lemma FindIs(s: string, c: char, k: nat)
    requires k < |s| && s[k] == c && c !in s[..k]
    ensures Find(s, c) == k
  {
  }

  /** The loop both header parsers share. */
  method ParseHeader<T>(raw: string, parse: string -> Option<T>) returns (items: seq<T>)
    ensures items == ParseList(raw, parse)
  {
    items := [];
    if Strip(raw) == [] {
      return;
    }
    var entries := Split(raw, ',');
    for i := 0 to |entries|
      invariant items == ParseAll(entries[..i], parse)
    {
      assert entries[..i + 1][..i] == entries[..i];
      var parsed := parse(entries[i]);
      if parsed.Some? {
        items := items + [parsed.value];
      }
    }
    assert entries[..|entries|] == entries;
  }

  // ----- X-Forwarded-Namespaces -----

  function PrintPair(p: Pair): string {
    p.namespace + [':'] + p.cluster
  }

  /** `ns:cluster`, split at the first colon. */
  function SplitPair(s: string): Option<Pair> {
    var colon := Find(s, ':');
    if colon == |s| then None
    else
      var p := Pair(Strip(s[..colon]), Strip(s[colon + 1..]));
      if p.namespace != [] && p.cluster != [] then Some(p) else None
  }

  function ParseEntry(raw: string): Option<Pair> {
    SplitPair(Strip(raw))
  }

  datatype Error = TooManyNamespaces(count: nat)

  /** `_parse_namespaces_header` */
  method ParseNamespacesHeader(raw: string, max: nat) returns (r: Result<seq<Pair>, Error>)
    ensures var pairs := ParseList(raw, ParseEntry);
      r == if |pairs| <= max then Ok(pairs) else Err(TooManyNamespaces(|pairs|))
  {
    var pairs := ParseHeader(raw, ParseEntry);
    r := if |pairs| <= max then Ok(pairs) else Err(TooManyNamespaces(|pairs|));
  }

  /** Names that survive: trimmed, non-empty, no comma, and no colon in the namespace. */
  predicate CleanPair(p: Pair) {
    && p.namespace != [] && IsStripped(p.namespace) && ',' !in p.namespace && ':' !in p.namespace
    && p.cluster != [] && IsStripped(p.cluster) && ',' !in p.cluster
  }

  lemma SplitPrintedPair(p: Pair)
    requires CleanPair(p)
    ensures SplitPair(PrintPair(p)) == Some(p)
  {
    var s, k := PrintPair(p), |p.namespace|;
    assert s[..k] == p.namespace && s[k + 1..] == p.cluster;
    FindIs(s, ':', k);
  }

  lemma PairSurvives(p: Pair)
    requires CleanPair(p)
    ensures Survives(p, PrintPair, ParseEntry)
  {
    SplitPrintedPair(p);
    PrintedPairIsEntry(p);
    assert Strip(PrintPair(p)) == PrintPair(p);
  }

  lemma PrintedPairIsEntry(p: Pair)
    requires CleanPair(p)
    ensures ',' !in PrintPair(p) && PrintPair(p) != [] && IsStripped(PrintPair(p))
  {
    var s := PrintPair(p);
    assert s[0] == p.namespace[0] && s[|s| - 1] == p.cluster[|p.cluster| - 1];
  }

  lemma SplitPairIsClean(s: string)
    requires ',' !in s && SplitPair(s).Some?
    ensures CleanPair(SplitPair(s).value)
  {
    var colon := Find(s, ':');
    var p := SplitPair(s).value;
    forall c | c in p.namespace ensures c in s && c != ':' {
      StripMembers(s[..colon], c);
    }
    forall c | c in p.cluster ensures c in s {
      StripMembers(s[colon + 1..], c);
    }
  }

  lemma StripKeepsOut(s: string, c: char)
    requires c !in s
    ensures c !in Strip(s)
  {
    if c in Strip(s) { StripMembers(s, c); }
  }

  /** The backend recovers exactly the printed list iff every name is clean. */
  lemma NamespacesRoundTripIff(pairs: seq<Pair>)
    ensures ParseList(PrintList(pairs, PrintPair), ParseEntry) == pairs <==> forall p :: p in pairs ==> CleanPair(p)
  {
    forall e | ',' !in e && ParseEntry(e).Some? ensures CleanPair(ParseEntry(e).value) {
      StripKeepsOut(e, ',');
      SplitPairIsClean(Strip(e));
    }
    ListParsed(PrintList(pairs, PrintPair), ParseEntry, CleanPair);
    if forall p :: p in pairs ==> CleanPair(p) {
      forall p | p in pairs ensures Survives(p, PrintPair, ParseEntry) { PairSurvives(p); }
      ListRoundTrip(pairs, PrintPair, ParseEntry);
    }
  }

  // ----- X-Forwarded-Namespace-Emails -----

  datatype Contact = Contact(pair: Pair, email: string)

  function PrintContact(c: Contact): string {
    PrintPair(c.pair) + ['='] + c.email
  }

  /** The position of the last `c`, or the length of `s` when there is none. */
  function FindLast(s: string, c: char): (i: nat)
    ensures i <= |s| && (i < |s| ==> s[i] == c)
    ensures forall j :: 0 <= j < |s| && s[j] == c ==> i < |s| && j <= i
  {
    if s == [] then 0
    else if s[|s| - 1] == c then |s| - 1
    else
      var i := FindLast(s[..|s| - 1], c);
      if i == |s| - 1 then |s| else i
  }

  /** `ns:cluster=email`, split at the last equals sign. */
  function SplitContact(s: string): Option<Contact> {
    var eq := FindLast(s, '=');
    if eq == |s| then None
    else
      var email := Strip(s[eq + 1..]);
      match SplitPair(s[..eq])
      case None => None
      case Some(p) => if email == [] then None else Some(Contact(p, email))
  }

  function ParseContact(raw: string): Option<Contact> {
    SplitContact(Strip(raw))
  }

  /** `_parse_namespace_emails_header` */
  method ParseNamespaceEmailsHeader(raw: string) returns (contacts: seq<Contact>)
    ensures contacts == ParseList(raw, ParseContact)
  {
    contacts := ParseHeader(raw, ParseContact);
  }

  predicate CleanContact(c: Contact) {
    CleanPair(c.pair) && c.email != [] && IsStripped(c.email) && ',' !in c.email && '=' !in c.email
  }

  /** Without an equals sign in the email, the last one separates it. */
  lemma LastEquals(left: string, email: string)
    requires '=' !in email
    ensures var s := left + ['='] + email;
      FindLast(s, '=') == |left| && s[..|left|] == left && s[|left| + 1..] == email
  {
    var s := left + ['='] + email;
    assert s[|left|] == '=';
    var i := FindLast(s, '=');
    assert forall j :: |left| < j < |s| ==> s[j] in email;
  }

  lemma SplitPrintedContact(c: Contact)
    requires CleanContact(c)
    ensures SplitContact(PrintContact(c)) == Some(c)
  {
    LastEquals(PrintPair(c.pair), c.email);
    SplitPrintedPair(c.pair);
  }

  lemma PrintedContactIsEntry(c: Contact)
    requires CleanContact(c)
    ensures ',' !in PrintContact(c) && PrintContact(c) != [] && IsStripped(PrintContact(c))
  {
    var s := PrintContact(c);
    assert s[0] == c.pair.namespace[0] && s[|s| - 1] == c.email[|c.email| - 1];
  }

  lemma ContactSurvives(c: Contact)
    requires CleanContact(c)
    ensures Survives(c, PrintContact, ParseContact)
  {
    var s := PrintContact(c);
    assert SplitContact(s) == Some(c) by { SplitPrintedContact(c); }
    PrintedContactIsEntry(c);
    assert Strip(s) == s;
  }

  lemma AfterLast(s: string, c: char)
    requires FindLast(s, c) < |s|
    ensures c !in s[FindLast(s, c) + 1..]
  {
    var i := FindLast(s, c);
    var tail := s[i + 1..];
    forall k | 0 <= k < |tail| ensures tail[k] != c {
      assert tail[k] == s[i + 1 + k];
    }
  }

  lemma SplitContactIsClean(s: string)
    requires ',' !in s && SplitContact(s).Some?
    ensures CleanContact(SplitContact(s).value)
  {
    var eq := FindLast(s, '=');
    SplitPairIsClean(s[..eq]);
    AfterLast(s, '=');
    StripKeepsOut(s[eq + 1..], '=');
    StripKeepsOut(s[eq + 1..], ',');
  }

  /** Contacts round-trip iff the names are clean and the email has no comma and no `=`. */
  lemma EmailsRoundTripIff(contacts: seq<Contact>)
    ensures ParseList(PrintList(contacts, PrintContact), ParseContact) == contacts
            <==> forall c :: c in contacts ==> CleanContact(c)
  {
    forall e | ',' !in e && ParseContact(e).Some? ensures CleanContact(ParseContact(e).value) {
      StripKeepsOut(e, ',');
      SplitContactIsClean(Strip(e));
    }
    ListParsed(PrintList(contacts, PrintContact), ParseContact, CleanContact);
    if forall c :: c in contacts ==> CleanContact(c) {
      forall c | c in contacts ensures Survives(c, PrintContact, ParseContact) { ContactSurvives(c); }
      ListRoundTrip(contacts, PrintContact, ParseContact);
    }
  }

  // ----- _merge_namespaces -----

  /** Cross-cluster pairs are appended behind the header's own, without repetition. */
  method MergeNamespaces(primary: seq<Pair>, extra: seq<Pair>) returns (merged: seq<Pair>)
    ensures primary <= merged && Distinct(merged[|primary|..])
    ensures forall p :: p in merged <==> p in primary || p in extra
    ensures forall p :: p in merged[|primary|..] ==> p !in primary
  {
    var seen := set p | p in primary;
    merged := primary;
    for i := 0 to |extra|
      invariant primary <= merged && Distinct(merged[|primary|..])
      invariant forall p :: p in merged <==> p in primary || p in extra[..i]
      invariant forall p :: p in merged[|primary|..] ==> p !in primary
      invariant forall p :: p in seen <==> p in merged
    {
      assert extra[..i + 1] == extra[..i] + [extra[i]];
      if extra[i] !in seen {
        ghost var tail := merged[|primary|..];
        seen := seen + {extra[i]};
        merged := merged + [extra[i]];
        assert merged[|primary|..] == tail + [extra[i]];
      }
    }
    assert extra[..|extra|] == extra;
  }
}
