/** Comment messages and their segments (services/comment_content.py): the `@[name]`
    scanner, the printer, and exactly when they undo each other. */
module Comments {
  import opened Wrappers
  import opened Text
  import opened Ordering

  datatype Segment = Text(text: string) | Mention(userId: string, username: string)

  datatype User = User(id: string, username: string)

  /** lower(username) -> user */
  type Directory = map<string, User>

  // ----- the mention token -----

  /** The name of the token `@[name]` at the start of `m`; names are non-empty and end at
      the first `]`. */
  function TokenAt(m: string): (name: Option<string>)
    ensures name.Some? ==> name.value != [] && ']' !in name.value && TokenText(name.value) <= m
  {
    if |m| >= 2 && m[0] == '@' && m[1] == '[' then
      var close := Find(m[2..], ']');
      if 0 < close < |m| - 2 then
        assert TokenText(m[2..][..close]) == m[..close + 3];
        Some(m[2..][..close])
      else None
    else None
  }

  function TokenText(name: string): string {
    "@[" + name + "]"
  }

  // ----- parse_message_to_segments -----

  /** Text in front of already parsed segments; adjacent text is merged. */
  function PushText(t: string, segs: seq<Segment>): seq<Segment> {
    if t == [] then segs
    else if segs != [] && segs[0].Text? then [Text(t + segs[0].text)] + segs[1..]
    else [Text(t)] + segs
  }

  /** How far the scanner moves: past a token, or one character. */
  function Step(m: string): (h: nat)
    requires m != []
    ensures 1 <= h <= |m|
    ensures TokenAt(m).Some? ==> m[..h] == TokenText(TokenAt(m).value)
  {
    match TokenAt(m) case None => 1 case Some(name) => |TokenText(name)|
  }

  /** The message starts with a token whose name the directory knows. */
  predicate Resolves(m: string, users: Directory) {
    TokenAt(m).Some? && Lower(TokenAt(m).value) in users
  }

  function MentionOf(m: string, users: Directory): Segment
    requires Resolves(m, users)
  {
    var user := users[Lower(TokenAt(m).value)];
    Mention(user.id, user.username)
  }

  /** The leftmost tokens become mentions when the directory knows the name, and stay
      literal text otherwise. */
  function Parse(m: string, users: Directory): seq<Segment>
    decreases |m|
  {
    if m == [] then []
    else if Resolves(m, users) then [MentionOf(m, users)] + Parse(m[Step(m)..], users)
    else PushText(m[..Step(m)], Parse(m[Step(m)..], users))
  }

  /** Parsed pieces side by side, with text merged where they meet. */
  function Glue(a: seq<Segment>, b: seq<Segment>): seq<Segment> {
    if a != [] && b != [] && a[|a| - 1].Text? && b[0].Text? then
      a[..|a| - 1] + [Text(a[|a| - 1].text + b[0].text)] + b[1..]
    else a + b
  }

  function AppendText(segs: seq<Segment>, t: string): seq<Segment> {
    if t == [] then segs
    else if segs != [] && segs[|segs| - 1].Text? then
      segs[..|segs| - 1] + [Text(segs[|segs| - 1].text + t)]
    else segs + [Text(t)]
  }

  lemma GlueInner(a: seq<Segment>, x: string, y: string, b: seq<Segment>)
    ensures Glue(a + [Text(x)], [Text(y)] + b) == a + [Text(x + y)] + b
  {
    var l, r := a + [Text(x)], [Text(y)] + b;
    assert l[|l| - 1] == Text(x) && r[0] == Text(y) && l[..|l| - 1] == a && r[1..] == b;
  }

  lemma GlueOuter(a: seq<Segment>, x: string, b: seq<Segment>)
    requires b != [] ==> b[0].Mention?
    ensures Glue(a + [Text(x)], b) == a + [Text(x)] + b
  {
  }

  /** What `t` is appended to: the text at the end, if any, and what comes before. */
  lemma AppendShape(a: seq<Segment>, t: string) returns (front: seq<Segment>, x: string)
    requires t != []
    ensures AppendText(a, t) == front + [Text(x + t)]
    ensures if a != [] && a[|a| - 1].Text? then a == front + [Text(x)] else a == front && x == []
  {
    if a != [] && a[|a| - 1].Text? {
      return a[..|a| - 1], a[|a| - 1].text;
    }
    assert [] + t == t;
    return a, [];
  }

  lemma PushShape(t: string, b: seq<Segment>) returns (y: string, rest: seq<Segment>)
    requires t != []
    ensures PushText(t, b) == [Text(t + y)] + rest
    ensures if b != [] && b[0].Text? then b == [Text(y)] + rest else b == rest && y == []
  {
    if b != [] && b[0].Text? {
      return b[0].text, b[1..];
    }
    assert t + [] == t;
    return [], b;
  }

  lemma GlueAppend(a: seq<Segment>, t: string, b: seq<Segment>)
    ensures Glue(AppendText(a, t), b) == Glue(a, PushText(t, b))
  {
    if t != [] {
      var front, x := AppendShape(a, t);
      var y, rest := PushShape(t, b);
      GlueMiddle(a, front, x, t, y, rest, b);
    }
  }

  lemma GlueMiddle(
    a: seq<Segment>, front: seq<Segment>, x: string, t: string, y: string, rest: seq<Segment>, b: seq<Segment>)
    requires if a != [] && a[|a| - 1].Text? then a == front + [Text(x)] else a == front && x == []
    requires if b != [] && b[0].Text? then b == [Text(y)] + rest else b == rest && y == []
    ensures Glue(front + [Text(x + t)], b) == Glue(a, [Text(t + y)] + rest)
  {
    GlueAfter(front, x + t, b, y, rest);
    GlueBefore(a, front, x, t + y, rest);
    assert x + t + y == x + (t + y);
  }

  lemma GlueAfter(front: seq<Segment>, x: string, b: seq<Segment>, y: string, rest: seq<Segment>)
    requires if b != [] && b[0].Text? then b == [Text(y)] + rest else b == rest && y == []
    ensures Glue(front + [Text(x)], b) == front + [Text(x + y)] + rest
  {
    if b != [] && b[0].Text? {
      GlueInner(front, x, y, rest);
    } else {
      GlueOuter(front, x, b);
      assert x + [] == x;
    }
  }

  lemma GlueBefore(a: seq<Segment>, front: seq<Segment>, x: string, t: string, rest: seq<Segment>)
    requires if a != [] && a[|a| - 1].Text? then a == front + [Text(x)] else a == front && x == []
    ensures Glue(a, [Text(t)] + rest) == front + [Text(x + t)] + rest
  {
    if a != [] && a[|a| - 1].Text? {
      GlueInner(front, x, t, rest);
    } else {
      assert x + t == t;
    }
  }

  lemma PushPush(t: string, u: string, segs: seq<Segment>)
    ensures PushText(t, PushText(u, segs)) == PushText(t + u, segs)
  {
    if t == [] {
      assert t + u == u;
    } else if u == [] {
      assert t + u == t;
    } else if segs != [] && segs[0].Text? {
      assert t + (u + segs[0].text) == t + u + segs[0].text;
    }
  }

  /** `_MENTION_RE.finditer`: the first token at or after `pos`. */
  method NextToken(m: string, pos: nat) returns (start: nat, found: bool)
    requires pos <= |m|
    ensures pos <= start <= |m|
    ensures forall k :: pos <= k < start ==> TokenAt(m[k..]).None?
    ensures if found then start < |m| && TokenAt(m[start..]).Some? else start == |m|
  {
    start, found := pos, false;
    while start < |m|
      invariant pos <= start <= |m| && !found
      invariant forall k :: pos <= k < start ==> TokenAt(m[k..]).None?
    {
      if TokenAt(m[start..]).Some? {
        found := true;
        return;
      }
      start := start + 1;
    }
  }

  /** A stretch without tokens is text. */
  lemma {:induction false} ParseGap(m: string, pos: nat, start: nat, users: Directory)
    requires pos <= start <= |m|
    requires forall k :: pos <= k < start ==> TokenAt(m[k..]).None?
    ensures Parse(m[pos..], users) == PushText(m[pos..start], Parse(m[start..], users))
    decreases start - pos
  {
    if pos < start {
      ParseGap(m, pos + 1, start, users);
      assert m[pos..][1..] == m[pos + 1..];
      assert m[pos..][..1] + m[pos + 1..start] == m[pos..start];
      PushPush(m[pos..][..1], m[pos + 1..start], Parse(m[start..], users));
    }
  }

  /** What the loop has built so far, joined with what the rest parses to. */
  lemma GapStep(m: string, pos: nat, start: nat, users: Directory, done: seq<Segment>)
    requires pos <= start <= |m|
    requires forall k :: pos <= k < start ==> TokenAt(m[k..]).None?
    ensures Parsed(AppendText(done, m[pos..start]), m[start..], users) == Parsed(done, m[pos..], users)
  {
    ParseGap(m, pos, start, users);
    GlueAppend(done, m[pos..start], Parse(m[start..], users));
  }

  lemma TokenStep(t: string, users: Directory, done: seq<Segment>)
    requires t != []
    ensures Parsed(if Resolves(t, users) then done + [MentionOf(t, users)] else AppendText(done, t[..Step(t)]),
                   t[Step(t)..], users) == Parsed(done, t, users)
  {
    if Resolves(t, users) {
      GlueMention(done, MentionOf(t, users), Parse(t[Step(t)..], users));
    } else {
      GlueAppend(done, t[..Step(t)], Parse(t[Step(t)..], users));
    }
  }

  lemma GlueMention(a: seq<Segment>, mention: Segment, b: seq<Segment>)
    requires mention.Mention?
    ensures Glue(a, [mention] + b) == Glue(a + [mention], b)
  {
  }

  /** The segments found so far, completed with what the rest of the message parses to. */
  ghost function Parsed(done: seq<Segment>, rest: string, users: Directory): seq<Segment> {
    Glue(done, Parse(rest, users))
  }

  /** One turn of the loop: the gap up to `start`, then the token there. */
  lemma LoopStep(m: string, pos: nat, start: nat, end: nat, users: Directory, done: seq<Segment>, next: seq<Segment>)
    requires pos <= start < |m| && end == start + Step(m[start..])
    requires forall k :: pos <= k < start ==> TokenAt(m[k..]).None?
    requires var gap, t := AppendText(done, m[pos..start]), m[start..];
      next == if Resolves(t, users) then gap + [MentionOf(t, users)] else AppendText(gap, t[..Step(t)])
    ensures Parsed(next, m[end..], users) == Parsed(done, m[pos..], users)
  {
    var t, gap := m[start..], AppendText(done, m[pos..start]);
    assert t[Step(t)..] == m[end..];
    assert Parsed(gap, t, users) == Parsed(done, m[pos..], users) by { GapStep(m, pos, start, users, done); }
    assert Parsed(next, m[end..], users) == Parsed(gap, t, users) by { TokenStep(t, users, gap); }
  }

  lemma LoopEnd(m: string, pos: nat, users: Directory, done: seq<Segment>)
    requires pos <= |m|
    requires forall k :: pos <= k < |m| ==> TokenAt(m[k..]).None?
    ensures AppendText(done, m[pos..]) == Parsed(done, m[pos..], users)
  {
    GapStep(m, pos, |m|, users, done);
    assert m[pos..|m|] == m[pos..] && m[|m|..] == [];
    assert Glue(AppendText(done, m[pos..]), []) == AppendText(done, m[pos..]);
  }

  /** `parse_message_to_segments` */
  method ParseMessage(m: string, users: Directory) returns (segments: seq<Segment>)
    ensures segments == Parse(m, users)
  {
    segments := [];
    var pos := 0;
    var start, found := NextToken(m, 0);
    assert m[pos..] == m && Parsed([], m, users) == Parse(m, users);
    while found
      invariant pos <= start <= |m|
      invariant forall k :: pos <= k < start ==> TokenAt(m[k..]).None?
      invariant if found then start < |m| && TokenAt(m[start..]).Some? else start == |m|
      invariant Parsed(segments, m[pos..], users) == Parse(m, users)
      decreases |m| - pos, if found then 1 else 0
    {
      ghost var done := segments;
      segments := AppendText(segments, m[pos..start]);
      var token := m[start..];
      segments :=
        if Resolves(token, users) then segments + [MentionOf(token, users)]
        else AppendText(segments, token[..Step(token)]);
      var end := start + Step(token);
      LoopStep(m, pos, start, end, users, done, segments);
      pos := end;
      start, found := NextToken(m, pos);
    }
    LoopEnd(m, pos, users, segments);
    segments := AppendText(segments, m[pos..]);
  }

  // ----- segments_to_message, mention_user_ids -----

  function PrintSegment(seg: Segment): string {
    match seg
    case Text(t) => t
    case Mention(_, username) => TokenText(username)
  }

  function Print(segs: seq<Segment>): string {
    if segs == [] then [] else PrintSegment(segs[0]) + Print(segs[1..])
  }

  lemma {:induction false} PrintAppend(segs: seq<Segment>, seg: Segment)
    ensures Print(segs + [seg]) == Print(segs) + PrintSegment(seg)
  {
    if segs == [] {
      assert [seg][1..] == [] && segs + [seg] == [seg];
    } else {
      PrintAppend(segs[1..], seg);
      assert (segs + [seg])[1..] == segs[1..] + [seg] && (segs + [seg])[0] == segs[0];
      assert Print(segs + [seg]) == PrintSegment(segs[0]) + (Print(segs[1..]) + PrintSegment(seg));
    }
  }

  /** `segments_to_message` */
  method SegmentsToMessage(segs: seq<Segment>) returns (m: string)
    ensures m == Print(segs)
  {
    m := [];
    for i := 0 to |segs|
      invariant m == Print(segs[..i])
    {
      PrintAppend(segs[..i], segs[i]);
      assert segs[..i + 1] == segs[..i] + [segs[i]];
      m := m + PrintSegment(segs[i]);
    }
    assert segs[..|segs|] == segs;
  }

  function MentionedIds(segs: seq<Segment>): seq<string> {
    if segs == [] then []
    else
      var n := |segs| - 1;
      MentionedIds(segs[..n]) + if segs[n].Mention? && segs[n].userId != [] then [segs[n].userId] else []
  }

  /** The distinct mentioned users of the first `k` segments. */
  function Mentioned(segs: seq<Segment>, k: nat): seq<string>
    requires k <= |segs|
  {
    Dedup(MentionedIds(segs[..k]))
  }

  lemma MentionedNext(segs: seq<Segment>, k: nat)
    requires k < |segs|
    ensures var before := Mentioned(segs, k);
      Mentioned(segs, k + 1) ==
      if segs[k].Mention? && segs[k].userId != [] && segs[k].userId !in before then before + [segs[k].userId]
      else before
  {
    var ids := MentionedIds(segs[..k]);
    assert segs[..k + 1][..k] == segs[..k];
    if segs[k].Mention? && segs[k].userId != [] {
      assert (ids + [segs[k].userId])[..|ids|] == ids;
    } else {
      assert ids + [] == ids;
    }
  }

  /** `mention_user_ids`: first mentions, in order, without repetition. */
  method MentionUserIds(segs: seq<Segment>) returns (ids: seq<string>)
    ensures ids == Dedup(MentionedIds(segs))
  {
    var seen: set<string> := {};
    ids := [];
    for i := 0 to |segs|
      invariant ids == Mentioned(segs, i) && seen == set x | x in ids
    {
      MentionedNext(segs, i);
      if segs[i].Mention? && segs[i].userId != [] && segs[i].userId !in seen {
        seen := seen + {segs[i].userId};
        ids := ids + [segs[i].userId];
      }
    }
    assert segs[..|segs|] == segs;
  }

  /** The first mention of a user id. */
  predicate FirstMention(segs: seq<Segment>, id: string, k: int) {
    && 0 <= k < |segs| && segs[k].Mention? && segs[k].userId == id && |id| > 0
    && forall j :: 0 <= j < k ==> !(segs[j].Mention? && segs[j].userId == id)
  }

  /** Every listed id is mentioned. */
  lemma {:induction false} ListedIsMentioned(segs: seq<Segment>, i: nat) returns (k: nat)
    requires i < |Dedup(MentionedIds(segs))|
    ensures FirstMention(segs, Dedup(MentionedIds(segs))[i], k)
    decreases |segs|
  {
    var n := |segs| - 1;
    var before := LastMention(segs);
    if i < |before| {
      k := ListedIsMentioned(segs[..n], i);
      LongerFirstMention(segs, before[i], k);
    } else {
      k := n;
      NewIsFirst(segs);
    }
  }

  lemma LastMention(segs: seq<Segment>) returns (before: seq<string>)
    requires segs != []
    ensures before == Dedup(MentionedIds(segs[..|segs| - 1]))
    ensures var last, ids := segs[|segs| - 1], Dedup(MentionedIds(segs));
      if last.Mention? && last.userId != [] && last.userId !in before then ids == before + [last.userId]
      else ids == before
  {
    var n := |segs| - 1;
    before := Mentioned(segs, n);
    MentionedNext(segs, n);
    assert segs[..n + 1] == segs;
  }

  lemma NewIsFirst(segs: seq<Segment>)
    requires segs != []
    requires var id := segs[|segs| - 1];
      id.Mention? && id.userId != [] && id.userId !in Dedup(MentionedIds(segs[..|segs| - 1]))
    ensures FirstMention(segs, segs[|segs| - 1].userId, |segs| - 1)
  {
    var n := |segs| - 1;
    forall j | 0 <= j < n && segs[j].Mention? ensures segs[j].userId != segs[n].userId {
      if segs[j].userId != [] {
        MentionIsListed(segs[..n], j);
      }
    }
  }

  lemma LongerFirstMention(segs: seq<Segment>, id: string, k: int)
    requires segs != []
    ensures FirstMention(segs[..|segs| - 1], id, k) ==> FirstMention(segs, id, k)
    ensures FirstMention(segs, id, k) && k < |segs| - 1 ==> FirstMention(segs[..|segs| - 1], id, k)
  {
    assert forall j :: 0 <= j < |segs| - 1 ==> segs[..|segs| - 1][j] == segs[j];
  }

  lemma NewIsMentionedLast(segs: seq<Segment>, id: string, m: int)
    requires segs != [] && FirstMention(segs, id, m) && id !in Dedup(MentionedIds(segs[..|segs| - 1]))
    ensures m == |segs| - 1
  {
    if m < |segs| - 1 {
      MentionIsListed(segs[..|segs| - 1], m);
    }
  }

  lemma IdsOfLast(segs: seq<Segment>, n: nat, before: seq<string>, ids: seq<string>)
    requires |segs| == n + 1 && before == Dedup(MentionedIds(segs[..n])) && ids == Dedup(MentionedIds(segs))
    ensures before <= ids && |ids| <= |before| + 1
    ensures |ids| > |before| ==> ids[|before|] !in before
  {
    MentionedNext(segs, n);
    assert segs[..n + 1] == segs;
  }

  lemma PlaceInPrefix(segs: seq<Segment>, n: nat, before: seq<string>, i: nat, k: int)
    requires |segs| == n + 1 && before == Dedup(MentionedIds(segs[..n])) && i < |before|
    requires FirstMention(segs, before[i], k)
    ensures FirstMention(segs[..n], before[i], k) && k < n
  {
    var l := ListedIsMentioned(segs[..n], i);
    SameFirstMention(segs, before[i], k, l);
  }

  /** The listed ids stand in the order of their first mention. */
  lemma {:induction false} MentionedInOrder(segs: seq<Segment>, ids: seq<string>, i: nat, j: nat, k: int, m: int)
    requires ids == Dedup(MentionedIds(segs)) && i < j < |ids|
    requires FirstMention(segs, ids[i], k) && FirstMention(segs, ids[j], m)
    ensures k < m
    decreases |segs|
  {
    var n := |segs| - 1;
    var before := OrderStep(segs, n, ids, i, j, k, m);
    if j < |before| {
      MentionedInOrder(segs[..n], before, i, j, k, m);
    }
  }

  lemma OrderStep(segs: seq<Segment>, n: nat, ids: seq<string>, i: nat, j: nat, k: int, m: int)
    returns (before: seq<string>)
    requires |segs| == n + 1 && ids == Dedup(MentionedIds(segs)) && i < j < |ids|
    requires FirstMention(segs, ids[i], k) && FirstMention(segs, ids[j], m)
    ensures before == Dedup(MentionedIds(segs[..n]))
    ensures i < |before| && FirstMention(segs[..n], before[i], k) && k < n
    ensures if j < |before| then FirstMention(segs[..n], before[j], m) else m == n
  {
    before := Dedup(MentionedIds(segs[..n]));
    IdsOfLast(segs, n, before, ids);
    assert before[i] == ids[i];
    PlaceInPrefix(segs, n, before, i, k);
    if j < |before| {
      assert before[j] == ids[j];
      PlaceInPrefix(segs, n, before, j, m);
    } else {
      NewIsMentionedLast(segs, ids[j], m);
    }
  }

  lemma SameFirstMention(segs: seq<Segment>, id: string, m: nat, l: nat)
    requires FirstMention(segs, id, m) && segs != [] && FirstMention(segs[..|segs| - 1], id, l)
    ensures m == l
  {
    assert forall j :: 0 <= j < |segs| - 1 ==> segs[..|segs| - 1][j] == segs[j];
  }

  lemma {:induction false} MentionIsListed(segs: seq<Segment>, k: nat)
    requires k < |segs| && segs[k].Mention? && segs[k].userId != []
    ensures segs[k].userId in Dedup(MentionedIds(segs))
    decreases |segs|
  {
    var n := |segs| - 1;
    if k < n {
      MentionIsListed(segs[..n], k);
    }
  }

  // ----- parser output is minimal -----

  ghost predicate Minimal(segs: seq<Segment>) {
    && (forall i :: 0 <= i < |segs| && segs[i].Text? ==> segs[i].text != [])
    && (forall i :: 0 <= i < |segs| - 1 && segs[i].Text? ==> segs[i + 1].Mention?)
  }

  lemma PushKeepsMinimal(t: string, segs: seq<Segment>)
    requires Minimal(segs)
    ensures Minimal(PushText(t, segs))
  {
  }

  lemma {:induction false} ParseMinimal(m: string, users: Directory)
    ensures Minimal(Parse(m, users))
    decreases |m|
  {
    if m != [] {
      ParseMinimal(m[Step(m)..], users);
      PushKeepsMinimal(m[..Step(m)], Parse(m[Step(m)..], users));
    }
  }

  // ----- printing what was parsed -----

  /** The directory is keyed by the lower-cased canonical username. */
  ghost predicate WellKeyed(users: Directory) {
    forall key :: key in users ==> Lower(users[key].username) == key
  }

  lemma PrintPush(t: string, segs: seq<Segment>)
    ensures Print(PushText(t, segs)) == t + Print(segs)
  {
    if t != [] && segs != [] && segs[0].Text? {
      assert t + segs[0].text + Print(segs[1..]) == t + (segs[0].text + Print(segs[1..]));
    } else if t != [] {
      assert ([Text(t)] + segs)[1..] == segs;
    }
  }

  /** Equal except for letter case. */
  ghost predicate SameButCase(a: string, b: string) {
    |a| == |b| && forall i :: 0 <= i < |a| ==> LowerChar(a[i]) == LowerChar(b[i])
  }

  /** Index `i` lies inside the name of a token that the parser resolved. */
  ghost predicate InResolvedName(m: string, users: Directory, i: int)
    decreases |m|
  {
    m != [] &&
    if i < Step(m) then Resolves(m, users) && 2 <= i < Step(m) - 1
    else InResolvedName(m[Step(m)..], users, i - Step(m))
  }

  /** A resolved token is printed with the canonical username. */
  lemma PrintedMention(m: string, users: Directory)
    requires WellKeyed(users) && Resolves(m, users)
    ensures var printed := PrintSegment(MentionOf(m, users));
      && SameButCase(printed, m[..Step(m)])
      && forall i :: 0 <= i < Step(m) && !(2 <= i < Step(m) - 1) ==> printed[i] == m[i]
  {
    var name := TokenAt(m).value;
    var username := users[Lower(name)].username;
    assert Lower(username) == Lower(name);
    var printed, token := TokenText(username), TokenText(name);
    assert token == m[..Step(m)];
    forall i | 0 <= i < |token| ensures LowerChar(printed[i]) == LowerChar(token[i]) {
      if 2 <= i < |token| - 1 {
        assert Lower(username)[i - 2] == Lower(name)[i - 2];
      }
    }
  }

  /** What the first step prints. */
  function PrintedHead(m: string, users: Directory): string
    requires m != []
  {
    if Resolves(m, users) then PrintSegment(MentionOf(m, users)) else m[..Step(m)]
  }

  lemma PrintStep(m: string, users: Directory)
    requires m != []
    ensures Print(Parse(m, users)) == PrintedHead(m, users) + Print(Parse(m[Step(m)..], users))
  {
    var rest := Parse(m[Step(m)..], users);
    if Resolves(m, users) {
      assert ([MentionOf(m, users)] + rest)[1..] == rest;
    } else {
      PrintPush(m[..Step(m)], rest);
    }
  }

  /** `out` is `m` up to the case of resolved names. */
  ghost predicate Reprints(out: string, m: string, users: Directory) {
    SameButCase(out, m) && forall i :: 0 <= i < |m| && !InResolvedName(m, users, i) ==> out[i] == m[i]
  }

  lemma ReprintStep(m: string, users: Directory, tail: string)
    requires WellKeyed(users) && m != [] && Reprints(tail, m[Step(m)..], users)
    ensures Reprints(PrintedHead(m, users) + tail, m, users)
  {
    var h := Step(m);
    var out := PrintedHead(m, users) + tail;
    if Resolves(m, users) {
      PrintedMention(m, users);
    }
    assert |PrintedHead(m, users)| == h;
    forall i | 0 <= i < |m|
      ensures LowerChar(out[i]) == LowerChar(m[i]) && (!InResolvedName(m, users, i) ==> out[i] == m[i])
    {
      if i >= h {
        assert m[i] == m[h..][i - h] && out[i] == tail[i - h];
      }
    }
  }

  /** Printing a parsed message gives the message back up to the case of resolved names. */
  lemma {:induction false} PrintOfParse(m: string, users: Directory)
    requires WellKeyed(users)
    ensures Reprints(Print(Parse(m, users)), m, users)
    decreases |m|
  {
    if m != [] {
      PrintOfParse(m[Step(m)..], users);
      PrintStep(m, users);
      ReprintStep(m, users, Print(Parse(m[Step(m)..], users)));
    }
  }

  // ----- exactly which segment lists are parser output -----

  /** Scanning the text alone finds only unknown tokens, and unless it is the last segment
      it leaves no `@[` open: an open one would swallow the following mention. */
  predicate TextSurvives(t: string, users: Directory, last: bool)
    decreases |t|
  {
    t == [] || (!Resolves(t, users) && (last || !OpensToken(t)) && TextSurvives(t[Step(t)..], users, last))
  }

  predicate OpensToken(t: string) {
    |t| >= 2 && t[0] == '@' && t[1] == '[' && ']' !in t[2..]
  }

  predicate MentionSurvives(seg: Segment, users: Directory) {
    seg.Mention? && seg.username != [] && ']' !in seg.username
    && Lower(seg.username) in users && users[Lower(seg.username)] == User(seg.userId, seg.username)
  }

  predicate Survives(seg: Segment, users: Directory, last: bool) {
    if seg.Text? then TextSurvives(seg.text, users, last) else MentionSurvives(seg, users)
  }

  /** Merged, non-empty segments each of which survives where it stands. */
  ghost predicate Faithful(segs: seq<Segment>, users: Directory) {
    && Minimal(segs)
    && forall i :: 0 <= i < |segs| ==> Survives(segs[i], users, i == |segs| - 1)
  }

  lemma FaithfulTail(segs: seq<Segment>, users: Directory)
    requires segs != [] && Faithful(segs, users)
    ensures Faithful(segs[1..], users)
  {
    var rest := segs[1..];
    forall i | 0 <= i < |rest| ensures Survives(rest[i], users, i == |rest| - 1) {
      assert rest[i] == segs[i + 1];
    }
  }

  lemma TokenOfMention(username: string, rest: string)
    requires username != [] && ']' !in username
    ensures TokenAt(TokenText(username) + rest) == Some(username)
    ensures Step(TokenText(username) + rest) == |TokenText(username)|
  {
    var m := TokenText(username) + rest;
    assert m[2..][|username|] == ']';
    assert m[2..][..|username|] == username;
    assert Find(m[2..], ']') == |username|;
  }

  /** A token at the start stays a token whatever follows. */
  lemma TokenExtends(t: string, rest: string)
    requires TokenAt(t).Some?
    ensures TokenAt(t + rest) == TokenAt(t)
  {
    var name := TokenAt(t).value;
    var tail := t[|TokenText(name)|..];
    assert t + rest == TokenText(name) + (tail + rest);
    TokenOfMention(name, tail + rest);
  }

  /** Text that leaves no token open does not join with a following mention. */
  lemma NoTokenAcross(t: string, rest: string)
    requires t != [] && TokenAt(t).None? && !OpensToken(t) && (rest == [] || rest[0] == '@')
    ensures TokenAt(t + rest).None?
  {
    if |t| >= 2 && t[0] == '@' && t[1] == '[' {
      assert (t + rest)[2..] == t[2..] + rest;
      var close := Find(t[2..], ']');
      assert t[2..][..|t[2..]|] == t[2..];
      assert close == 0;
      assert (t + rest)[2..][0] == ']';
    } else if |t| == 1 && rest != [] {
      assert (t + rest)[1] == '@';
    }
  }

  /** The scanner's first step over surviving text is the same with the rest appended. */
  lemma StepExtends(t: string, rest: string, users: Directory)
    requires t != [] && (rest == [] || rest[0] == '@')
    requires !Resolves(t, users) && (rest == [] || !OpensToken(t))
    ensures Step(t + rest) == Step(t) && !Resolves(t + rest, users)
    ensures (t + rest)[Step(t)..] == t[Step(t)..] + rest
    ensures (t + rest)[..Step(t)] == t[..Step(t)]
  {
    if TokenAt(t).Some? {
      TokenExtends(t, rest);
    } else if rest == [] {
      assert t + rest == t;
    } else {
      NoTokenAcross(t, rest);
    }
  }

  lemma {:induction false} ParseText(t: string, rest: string, users: Directory)
    requires TextSurvives(t, users, rest == []) && (rest == [] || rest[0] == '@')
    ensures Parse(t + rest, users) == PushText(t, Parse(rest, users))
    decreases |t|
  {
    if t == [] {
      assert t + rest == rest;
    } else {
      var h := Step(t);
      StepExtends(t, rest, users);
      ParseText(t[h..], rest, users);
      PushParts(t, h, Parse(rest, users));
    }
  }

  lemma PushParts(t: string, h: nat, segs: seq<Segment>)
    requires h <= |t|
    ensures PushText(t[..h], PushText(t[h..], segs)) == PushText(t, segs)
  {
    PushPush(t[..h], t[h..], segs);
    assert t[..h] + t[h..] == t;
  }

  /** Faithful segments survive printing and parsing. */
  lemma {:induction false} FaithfulRoundTrip(segs: seq<Segment>, users: Directory)
    requires Faithful(segs, users)
    ensures Parse(Print(segs), users) == segs
    decreases |segs|
  {
    if segs != [] {
      FaithfulTail(segs, users);
      FaithfulRoundTrip(segs[1..], users);
      var rest := Print(segs[1..]);
      assert Survives(segs[0], users, |segs| == 1);
      if segs[0].Text? {
        assert segs[1..] != [] ==> segs[1..][0].Mention?;
        ParseText(segs[0].text, rest, users);
      } else {
        var username := segs[0].username;
        TokenOfMention(username, rest);
        assert (TokenText(username) + rest)[|TokenText(username)|..] == rest;
      }
    }
  }

  /** `segs` were parsed from `m`: where leading text ends a complete raw token starts. */
  ghost predicate RawStart(m: string, segs: seq<Segment>) {
    && (segs != [] && segs[0].Mention? ==> TokenAt(m).Some?)
    && (segs != [] && segs[0].Text? ==>
          segs[0].text <= m && (|segs| > 1 ==> TokenAt(m[|segs[0].text|..]).Some?))
  }

  lemma RawStartPush(m: string, h: nat, segs: seq<Segment>)
    requires 0 < h <= |m| && RawStart(m[h..], segs) && Minimal(segs)
    ensures RawStart(m, PushText(m[..h], segs))
  {
    if segs != [] && segs[0].Text? {
      var t := segs[0].text;
      assert m[h..][|t|..] == m[h + |t|..];
      assert m[..h] + t <= m;
    }
  }

  lemma {:induction false} ParseRawStart(m: string, users: Directory)
    ensures RawStart(m, Parse(m, users))
    decreases |m|
  {
    if m != [] {
      ParseRawStart(m[Step(m)..], users);
      ParseMinimal(m[Step(m)..], users);
      RawStartPush(m, Step(m), Parse(m[Step(m)..], users));
    }
  }

  /** An open `@[` before a complete token would itself have been a token. */
  lemma OpenTokenCloses(m: string, t: string)
    requires t <= m && OpensToken(t) && TokenAt(m[|t|..]).Some?
    ensures TokenAt(m).Some?
  {
    var name := TokenAt(m[|t|..]).value;
    var k := |t| - 2;
    assert m[2..][..k] == t[2..];
    assert m[2..][k] == m[|t|..][0] == '@';
    assert m[|t|..][|TokenText(name)| - 1] == ']';
    assert m[2..][k + |TokenText(name)| - 1] == ']';
    assert ']' in m[2..];
    assert m[2..][..|m[2..]|] == m[2..];
    var close := Find(m[2..], ']');
    assert close != k;
    assert close > k;
  }

  /** The text a parsed message starts with. */
  function LeadingText(segs: seq<Segment>): string {
    if segs != [] && segs[0].Text? then segs[0].text else []
  }

  /** The scanner's first step is the same over the step and the text kept after it. */
  lemma LeadingStep(m: string, tail: string, users: Directory, last: bool)
    requires m != [] && !Resolves(m, users) && tail <= m[Step(m)..]
    requires !last ==> TokenAt(m[Step(m) + |tail|..]).Some?
    ensures var t := m[..Step(m)] + tail;
      Step(t) == Step(m) && t[Step(m)..] == tail && !Resolves(t, users) && (last || !OpensToken(t))
  {
    var h := Step(m);
    var t := m[..h] + tail;
    assert t <= m && m == t + m[|t|..];
    if TokenAt(m).Some? {
      TokenOfMention(TokenAt(m).value, tail);
      assert t[2..][h - 3] == ']';
    } else {
      NoTokenInPrefix(t, m[|t|..]);
      if !last && OpensToken(t) {
        OpenTokenCloses(m, t);
      }
    }
  }

  /** Text put in front of parsed text still survives. */
  lemma LeadingTextSurvives(m: string, tail: string, users: Directory, last: bool)
    requires m != [] && !Resolves(m, users) && tail <= m[Step(m)..] && TextSurvives(tail, users, last)
    requires !last ==> TokenAt(m[Step(m) + |tail|..]).Some?
    ensures TextSurvives(m[..Step(m)] + tail, users, last)
  {
    LeadingStep(m, tail, users, last);
  }

  lemma NoTokenInPrefix(t: string, rest: string)
    requires TokenAt(t + rest).None?
    ensures TokenAt(t).None?
  {
    if TokenAt(t).Some? {
      TokenExtends(t, rest);
    }
  }

  lemma FaithfulPush(m: string, segs: seq<Segment>, users: Directory)
    requires m != [] && !Resolves(m, users) && Faithful(segs, users) && RawStart(m[Step(m)..], segs)
    ensures Faithful(PushText(m[..Step(m)], segs), users)
  {
    var h := Step(m);
    var out := PushText(m[..h], segs);
    var tail := LeadingText(segs);
    PushKeepsMinimal(m[..h], segs);
    assert segs != [] ==> Survives(segs[0], users, |segs| == 1);
    assert m[h..][|tail|..] == m[h + |tail|..];
    LeadingTextSurvives(m, tail, users, |out| == 1);
    assert out[0] == Text(m[..h] + tail);
    var shift := |out| - |segs|;
    forall i | 1 <= i < |out| ensures Survives(out[i], users, i == |out| - 1) {
      assert out[i] == segs[i - shift];
    }
  }

  lemma FaithfulCons(seg: Segment, segs: seq<Segment>, users: Directory)
    requires MentionSurvives(seg, users) && Faithful(segs, users)
    ensures Faithful([seg] + segs, users)
  {
    var out := [seg] + segs;
    forall i | 0 <= i < |out| ensures Survives(out[i], users, i == |out| - 1) {
      if i > 0 { assert out[i] == segs[i - 1]; }
    }
  }

  lemma {:induction false} ParseIsFaithful(m: string, users: Directory)
    requires WellKeyed(users)
    ensures Faithful(Parse(m, users), users)
    decreases |m|
  {
    if m != [] {
      var rest := m[Step(m)..];
      ParseIsFaithful(rest, users);
      if Resolves(m, users) {
        LoweredName(TokenAt(m).value, MentionOf(m, users).username);
        FaithfulCons(MentionOf(m, users), Parse(rest, users), users);
      } else {
        ParseRawStart(rest, users);
        FaithfulPush(m, Parse(rest, users), users);
      }
    }
  }

  /** Lower-casing keeps a name non-empty and free of brackets. */
  lemma LoweredName(name: string, username: string)
    requires Lower(username) == Lower(name) && name != [] && ']' !in name
    ensures username != [] && ']' !in username
  {
    assert |username| == |Lower(username)| == |name|;
    forall i | 0 <= i < |username| ensures username[i] != ']' {
      assert LowerChar(username[i]) == Lower(username)[i] == Lower(name)[i] == LowerChar(name[i]);
      assert name[i] in name;
    }
  }

  /** Exactly when segments round-trip through the legacy message form. */
  lemma RoundTripIff(segs: seq<Segment>, users: Directory)
    requires WellKeyed(users)
    ensures Parse(Print(segs), users) == segs <==> Faithful(segs, users)
  {
    ParseIsFaithful(Print(segs), users);
    if Faithful(segs, users) {
      FaithfulRoundTrip(segs, users);
    }
  }

  /** Parsing is idempotent through printing. */
  lemma ParseIsIdempotent(m: string, users: Directory)
    requires WellKeyed(users)
    ensures Parse(Print(Parse(m, users)), users) == Parse(m, users)
  {
    ParseIsFaithful(m, users);
    FaithfulRoundTrip(Parse(m, users), users);
  }

  /** Text without `@[` always survives. */
  lemma {:induction false} PlainTextSurvives(t: string, users: Directory, last: bool)
    requires forall i :: 0 <= i < |t| - 1 && t[i] == '@' ==> t[i + 1] != '['
    ensures TextSurvives(t, users, last)
    decreases |t|
  {
    if t != [] {
      assert |t| >= 2 && t[0] == '@' ==> t[1] != '[';
      PlainTextSurvives(t[1..], users, last);
    }
  }
}
