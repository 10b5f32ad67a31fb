/** Whole runs of the hourly subscription job for one subscription
    (services/cve_subscription_service.py, `run_subscription_diff`). */
module SubscriptionRuns {
  import opened Wrappers
  import opened Ordering
  import opened Pairs
  import opened Subscriptions

  /** One run of the job: the rows StackRox returned, what the subscriber could see then,
      and the global EPSS threshold in force. */
  datatype Tick = Tick(rows: seq<Row>, visible: Visibility, threshold: real)

  ghost function Fresh(t: Tick): State {
    Build(t.rows, t.visible)
  }

  ghost function After(s: State, t: Tick): State {
    Diff(s, Fresh(t), t.threshold).0
  }

  ghost function EventsOf(s: State, t: Tick): seq<Event> {
    Diff(s, Fresh(t), t.threshold).1
  }

  /** The stored state after a run of ticks. */
  ghost function Stored(s: State, run: seq<Tick>): State {
    if run == [] then s else After(Stored(s, run[..|run| - 1]), run[|run| - 1])
  }

  ghost predicate Notifies(s: State, t: Tick) {
    exists e :: e in EventsOf(s, t) && e.ScoresChanged?
  }

  /** The EPSS value of a tick, when the CVE has one. */
  function Epss(t: Tick): Option<real> {
    ScoresOf(t.rows).epssAnchor
  }

  ghost predicate Affects(t: Tick) {
    Fresh(t).locations != []
  }

  lemma ScoreEventsOnly(s: State, t: Tick)
    requires s.version == STATE_VERSION
    ensures Notifies(s, t) <==> DiffScores(s.scores, ScoresOf(t.rows), t.threshold).1 && Affects(t)
  {
    var scoreEvents, locationEvents := ScoreEvents(s, Fresh(t), t.threshold), LocationEvents(s, Fresh(t));
    assert EventsOf(s, t) == scoreEvents + locationEvents;
    forall e | e in locationEvents ensures !e.ScoresChanged? {}
    if scoreEvents != [] {
      assert scoreEvents[0] in EventsOf(s, t);
    }
  }

  // ----- the snapshot is exactly the last build -----

  /** After any run the stored locations and scope are those of the last build. */
  lemma StoredIsLastBuild(s: State, run: seq<Tick>)
    requires run != []
    ensures var last := Fresh(run[|run| - 1]);
      Stored(s, run).version == STATE_VERSION
      && Stored(s, run).scope == last.scope && Stored(s, run).locations == last.locations
  {
  }

  /** Along every run, the location events of a tick are those of the rows of this and the
      previous tick, restricted to the pairs visible at both. */
  lemma RunAccessChangesAreSilent(s: State, run: seq<Tick>, t: Tick)
    requires run != []
    ensures var last := run[|run| - 1];
      var both := Meet(last.visible, t.visible);
      LocationEvents(Stored(s, run), Fresh(t)) == LocationEvents(Build(last.rows, both), Build(t.rows, both))
  {
    var last := run[|run| - 1];
    StoredIsLastBuild(s, run);
    ScoresDoNotMatter(Stored(s, run), Fresh(last), Fresh(t));
    AccessChangesAreSilent(last.rows, last.visible, t.rows, t.visible);
  }

  /** Repeating a tick says nothing and changes nothing, except that an anchor left null
      while the subscriber saw no location is filled in. */
  lemma RepeatIsSilent(s: State, t: Tick)
    ensures EventsOf(After(s, t), t) == []
    ensures var once, twice := After(s, t), After(After(s, t), t);
      if once.scores.epssAnchor.None? then twice == once.(scores := once.scores.(epssAnchor := Epss(t)))
      else twice == once
  {
    SameRowsAreSilent(t.rows, t.visible, t.visible);
    ScoresDoNotMatter(After(s, t), Fresh(t), Fresh(t));
    DiffAgain(s, Fresh(t), t.threshold);
  }

  lemma DiffAgain(s: State, n: State, threshold: real)
    requires n.version == STATE_VERSION
    ensures var once := Diff(s, n, threshold).0;
      && ScoreEvents(once, n, threshold) == []
      && StoredScores(once, n, threshold) ==
        if once.scores.epssAnchor.None? then once.scores.(epssAnchor := n.scores.epssAnchor) else once.scores
  {
  }

  /** An EPSS move that the subscriber has not been told about yet. */
  predicate PendingMove(s: State, t: Tick) {
    EpssMoved(s.scores.epssAnchor, Epss(t), t.threshold)
  }

  /** A tick in which only the subscriber's access changed is silent, except exactly when
      the subscriber saw no affected pair before and sees one now while an EPSS move is
      still pending: that move is then reported. */
  lemma AccessOnlyTick(s: State, t: Tick, visible: Visibility)
    requires s.version == STATE_VERSION
    ensures var t' := t.(visible := visible);
      EventsOf(After(s, t), t') == [] <==> !(!Affects(t) && Affects(t') && PendingMove(s, t))
  {
    var t' := t.(visible := visible);
    var once := After(s, t);
    SameRowsAreSilent(t.rows, t.visible, visible);
    ScoresDoNotMatter(once, Fresh(t), Fresh(t'));
    SameScoresAgain(s, Fresh(t), Fresh(t'), t.threshold);
  }

  lemma SameScoresAgain(s: State, n: State, n': State, threshold: real)
    requires s.version == STATE_VERSION && n.scores == n'.scores
    ensures ScoreEvents(Diff(s, n, threshold).0, n', threshold) == [] <==>
            !(n.locations == [] && n'.locations != [] && EpssMoved(s.scores.epssAnchor, n.scores.epssAnchor, threshold))
  {
  }

  function RowWith(p: Pair, epss: real): Row {
    Row(p, None, None, Some(epss), [], [])
  }

  lemma OneValue<T>(values: seq<Option<T>>, le: (T, T) -> bool)
    requires |values| == 1
    ensures MaxOrNone(values, le) == values[0]
  {
    assert values[..0] == [];
  }

  lemma OneRow(p: Pair, epss: real, visible: Visibility)
    ensures ScoresOf([RowWith(p, epss)]) == Scores(None, None, Some(epss))
    ensures Build([RowWith(p, epss)], visible).locations == [] <==> !Sees(visible, p)
  {
    var rows := [RowWith(p, epss)];
    OneValue(seq(|rows|, i requires 0 <= i < |rows| => rows[i].severity), (x, y) => x <= y);
    OneValue(seq(|rows|, i requires 0 <= i < |rows| => rows[i].cvss), (x, y) => x <= y);
    OneValue(seq(|rows|, i requires 0 <= i < |rows| => rows[i].epss), (x, y) => x <= y);
    assert rows[..0] == [];
    assert VisibleLocations(rows, visible) == if Sees(visible, p) then [LocationOf(rows[0])] else [];
  }

  lemma NothingSeenIsSilent(old_: seq<Row>, visible: Visibility, new_: seq<Row>)
    ensures LocationEvents(Build(old_, visible), Build(new_, Only({}))) == []
  {
    var o, n := Build(old_, visible), Build(new_, Only({}));
    forall p ensures !IsNewImage(o, n, p) && !IsNewFix(o, n, p) && !IsGone(o, n, p) {
      Findings(old_, visible, new_, Only({}), p);
    }
    assert NewImagePairs(o, n) == {} && NewFixPairs(o, n) == {} && GonePairs(o, n) == {};
  }

  /** The exception occurs: EPSS rises from 0.1 to 0.5 while the subscriber sees nothing,
      and is reported by a later tick in which only their access changed. */
  lemma AccessIsReported(p: Pair)
    ensures var s, unseen := Build([RowWith(p, 0.1)], Only({p})), Tick([RowWith(p, 0.5)], Only({}), 0.0);
      EventsOf(s, unseen) == [] && EventsOf(After(s, unseen), unseen.(visible := Only({p}))) != []
  {
    var s, unseen := Build([RowWith(p, 0.1)], Only({p})), Tick([RowWith(p, 0.5)], Only({}), 0.0);
    OneRow(p, 0.1, Only({p}));
    OneRow(p, 0.5, Only({}));
    OneRow(p, 0.5, Only({p}));
    NothingSeenIsSilent([RowWith(p, 0.1)], Only({p}), unseen.rows);
    AccessOnlyTick(s, unseen, Only({p}));
  }

  // ----- EPSS drift accumulates against the anchor -----

  /** One tick: the anchor ends close to a visible value, moves only with a notification
      or from null, and a notification sets it to the value it reports. */
  lemma AnchorStep(s: State, t: Tick)
    ensures Epss(t).Some? && Affects(t) ==>
              After(s, t).scores.epssAnchor.Some? && !EpssMoved(After(s, t).scores.epssAnchor, Epss(t), t.threshold)
    ensures s.version == STATE_VERSION && s.scores.epssAnchor.Some? && !Notifies(s, t) ==>
              After(s, t).scores.epssAnchor == s.scores.epssAnchor
    ensures s.version == STATE_VERSION && Notifies(s, t) && Epss(t).Some? ==> After(s, t).scores.epssAnchor == Epss(t)
  {
    if s.version == STATE_VERSION {
      ScoreEventsOnly(s, t);
    }
  }

  /** Closer than the notify delta, and on the same side of the threshold if there is one. */
  predicate Near(anchor: real, value: real, threshold: real) {
    Abs(value - anchor) < EPSS_NOTIFY_DELTA && (threshold > 0.0 ==> (anchor >= threshold <==> value >= threshold))
  }

  /** Along every run: with a value and a visible location, the stored anchor is within the
      notify delta of the value and on the same side of that tick's threshold. */
  lemma AnchorFollows(s: State, run: seq<Tick>)
    requires run != [] && Epss(run[|run| - 1]).Some? && Affects(run[|run| - 1])
    ensures var last, anchor := run[|run| - 1], Stored(s, run).scores.epssAnchor;
      anchor.Some? && Near(anchor.value, Epss(last).value, last.threshold)
  {
    AnchorStep(Stored(s, run[..|run| - 1]), run[|run| - 1]);
  }

  lemma {:induction false} VersionStays(s: State, run: seq<Tick>)
    requires s.version == STATE_VERSION
    ensures Stored(s, run).version == STATE_VERSION
  {
    if run != [] {
      VersionStays(s, run[..|run| - 1]);
    }
  }

  /** No tick of the run notifies about scores. */
  ghost predicate Silent(s: State, run: seq<Tick>) {
    forall k :: 0 <= k < |run| ==> !Notifies(Stored(s, run[..k]), run[k])
  }

  /** The anchor stands still through silent ticks. */
  lemma {:induction false} SilenceKeepsAnchor(s: State, run: seq<Tick>)
    requires s.version == STATE_VERSION && s.scores.epssAnchor.Some? && Silent(s, run)
    ensures Stored(s, run).scores.epssAnchor == s.scores.epssAnchor
    decreases |run|
  {
    if run != [] {
      var n := |run| - 1;
      assert forall k :: 0 <= k < n ==> run[..n][..k] == run[..k];
      SilenceKeepsAnchor(s, run[..n]);
      VersionStays(s, run[..n]);
      AnchorStep(Stored(s, run[..n]), run[n]);
    }
  }

  /** Without a further notification, the anchor is the last value reported, whatever state
      the reporting tick `t` started from. */
  lemma AnchorIsLastReported(s: State, t: Tick, after: seq<Tick>)
    requires s.version == STATE_VERSION && Notifies(s, t) && Epss(t).Some? && Silent(After(s, t), after)
    ensures Stored(After(s, t), after).scores.epssAnchor == Epss(t)
  {
    AnchorStep(s, t);
    SilenceKeepsAnchor(After(s, t), after);
  }

  /** Slow drift cannot slip by: as long as nothing more is reported, a visible value stays
      within the notify delta of the last reported one and on its side of the threshold,
      however many small ticks lie in between. */
  lemma NoSilentDrift(s: State, t: Tick, after: seq<Tick>)
    requires s.version == STATE_VERSION && Notifies(s, t) && Epss(t).Some? && Silent(After(s, t), after)
    requires after != [] && Epss(after[|after| - 1]).Some? && Affects(after[|after| - 1])
    ensures Near(Epss(t).value, Epss(after[|after| - 1]).value, after[|after| - 1].threshold)
  {
    AnchorIsLastReported(s, t, after);
    AnchorFollows(After(s, t), after);
  }

  // ----- what an event may mention -----

  /** Events mention only pairs the subscriber sees at that tick; a gone pair was also in
      the stored snapshot. */
  lemma EventsStayInView(s: State, t: Tick, e: Event, p: Pair)
    requires e in EventsOf(s, t) && p in e.scope
    ensures Sees(t.visible, p)
    ensures e.NoLongerAffected? ==> p in ByPair(s.locations) && p !in Affected(t.rows)
    ensures !e.NoLongerAffected? ==> p in Affected(t.rows)
  {
    var n := Fresh(t);
    if e.ScoresChanged? {
      LocationHasPair(n.locations, p);
      BuiltLocations(t.rows, t.visible, p);
    } else {
      FoundByDiff(s, n, e, p);
      FoundInView(s, t, p);
    }
  }

  lemma FoundByDiff(s: State, n: State, e: Event, p: Pair)
    requires e in LocationEvents(s, n) && p in e.scope
    ensures e.NewImages? ==> p in NewImagePairs(s, n)
    ensures e.FixAvailable? ==> p in NewFixPairs(s, n)
    ensures e.NoLongerAffected? ==> p in GonePairs(s, n)
  {
    ListedIsMember(NewImagePairs(s, n), p);
    ListedIsMember(NewFixPairs(s, n), p);
    ListedIsMember(GonePairs(s, n), p);
  }

  lemma ListedIsMember(pairs: set<Pair>, p: Pair)
    ensures p in SortedOf(pairs, ByCluster) <==> p in pairs
  {
    PairOrders();
    SortedOfCanonical(pairs, ByCluster);
    assert p in SortedOf(pairs, ByCluster) <==> p in Elems(SortedOf(pairs, ByCluster));
  }

  /** What the diff finds lies in view. */
  lemma FoundInView(s: State, t: Tick, p: Pair)
    ensures p in NewImagePairs(s, Fresh(t)) + NewFixPairs(s, Fresh(t)) ==> Sees(t.visible, p) && p in Affected(t.rows)
    ensures p in GonePairs(s, Fresh(t)) ==> Sees(t.visible, p) && p in ByPair(s.locations) && p !in Affected(t.rows)
  {
    BuiltLocations(t.rows, t.visible, p);
    BuiltScope(t.rows, t.visible, p);
  }

  lemma {:induction false} LocationHasPair(locations: seq<Location>, p: Pair)
    requires p in PairsOf(locations)
    ensures p in ByPair(locations)
  {
    var n := |locations| - 1;
    if locations[n].pair != p {
      var i :| 0 <= i < |locations| && PairsOf(locations)[i] == p;
      assert PairsOf(locations[..n])[i] == p;
      LocationHasPair(locations[..n], p);
    }
  }
}
