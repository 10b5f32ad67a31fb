# Verified decision logic of the CVE manager

The CVE manager shows StackRox findings to the teams that own namespaces, tells them what
changed, and lets them accept risks and track remediations. Under its HTTP and SQL layers
sits decision logic that makes claims about whole runs: access changes must not look like
data changes, nobody gets two summaries on one day, no event is counted twice, an upgrade
target fixes what it says it fixes. This project models that logic in Dafny and proves the
claims, or, where a claim fails, gives the input and the exact condition under which it
holds.

## How it is organised

| files | what they model |
|---|---|
| `Subscriptions`, `SubscriptionLaws`, `SubscriptionRuns`, `SubscriptionDigest`, `DigestLaws` | the hourly diff of a subscribed CVE, its runs, and the daily cursor-based email |
| `Versions`, `VersionLaws`, `Highest`, `Targets`, `FixRollup`, `RollupLaws`, `RollupPlaces` | PEP 440 over RPM-style version comparison, ranking, when the best version is the highest, and the component roll-up |
| `Comments` | the `@[name]` scanner and the printer |
| `Alerts`, `AlertLaws`, `DailyCap`, `NotificationSummary`, `NotificationLaws` | edge-triggered alert marks, the daily email cap, the consume-once event queue with concurrent writers |
| `SnapshotProtocol`, `NamespaceAccess` | the lock protocol around the cross-cluster access snapshot, and the index in it |
| `Suppression` | the list's and the per-location suppression decisions |
| `Remediations`, `RemediationRaces`, `Scopes`, `Acceptances`, `AcceptanceRaces`, `WorkflowLaws` | the two workflow machines, their overlapping requests, and risk acceptance scopes |
| `Escalations`, `CellLines` | deadlines per CVE and per location, the Excel cell limit |
| `HeaderCodec`, `HeaderInjector`, `HeaderLaws` | the forwarded headers between the Go injector and the Python backend |
| `Text`, `Ordering`, `Pairs`, `Days`, `Wrappers` | strings, sorting, (namespace, cluster) pairs, days, options |

A method is proved against a specification function. The modules named `…Laws`, and `RollupPlaces`, then say what
these functions mean on rows, fields and strings, without naming them again: for every diff,
version string, item, recipient, request and header.

`dafny verify dfyconfig.toml` checks all of it.

## How the source is represented

- Tables are sets or maps. A handler's commit is one atomic step guarded by the unique keys;
  a refused or rolled-back request leaves the table as it was. Whatever a handler read
  earlier (existing keys, deployments, users) is a parameter of the step and may be stale.
  `RemediationRaces` and `AcceptanceRaces` also separate loading a row from committing it.
- asyncio code is a state machine with one action per stretch between two awaits, and runs
  are arbitrary interleavings of the actions.
- Times are integers (reals in the snapshot protocol), scores are exact reals. CVSS and EPSS
  are compared after rounding half to even at one decimal of the shown value.
- PEP 440 is a parameter `pep: string -> Option<real>`: None is "not a PEP 440 version", and
  the keys are reals because any countable total order embeds in them. Glob matching,
  message-key categories, preferences, deliverable addresses and token lookups are
  parameters too.
- Python's stable sort appears as insertion sort. The two agree whenever the comparison is a
  total preorder. The version comparison is not one on mixed candidates, and there the order
  of the ranking may differ from Python's. `Targets.AnySortIsHighestIff` and
  `FixRollup.AnyTargetFixesIff` therefore speak of every order in which each element stands
  correctly to the next one, which is all a comparison sort guarantees then;
  `Targets.BestIsHighestIff` and `FixRollup.TargetFixesIff` are about insertion sort.
- `strip`, `lower` and digits are those of ASCII text.
- A scope key is the normalised scope itself instead of its digest, so keys are equal
  exactly when normalised scopes are.
- The auth header injector's handler reads its namespace cache at one instant.

Two assumptions are stated in the contracts: the clock of the daily caps never falls back by
more than the 30 days deliveries are kept, and one run of a job ends before the next run of
the same job begins.

## Where the code and its documentation part

- "Access changes never look like data changes" holds for location events
  (`Subscriptions.AccessChangesAreSilent`). For score events it has one exception: an EPSS
  move that happened while the subscriber saw no affected pair is reported when access
  returns (`SubscriptionRuns.AccessOnlyTick` gives the exact condition,
  `SubscriptionRuns.AccessIsReported` an input).
- The docstring of `is_location_suppressed` says the list hides a CVE if and only if every
  visible location is suppressed. With component rules the "only if" half fails
  (`Suppression.SplitComponentsDisagree`); `Suppression.DecisionsAgreeIff` says exactly when.
- `compare_versions` is not transitive across PEP 440 and other versions
  (`Versions.ReleaseCycle`, `Versions.MixedCycle`); `Versions.TransitiveIff` says exactly
  when it is.
- The roll-up says a target that is not marked uncertain fixes every fixable CVE of the
  component. It does not for 1.0rc1, 1.0 and 1.0-foo (`FixRollup.ReleaseItemMisses`).
  Whatever the sort does with such candidates, the promise holds exactly when they are
  settled: some version is at least as high as all, and so is every version tied with it
  (`FixRollup.AnyTargetFixesIff`). For the insertion sort of the model,
  `FixRollup.TargetFixesIff` says exactly when. Every selection from a set of versions is
  ranked correctly exactly when the two version orders agree on it
  (`Targets.AgreeIffAlwaysHighest`), as they do when all are PEP 440 or all are not.
- Overlapping requests on one risk acceptance can end with an approved acceptance for all
  teams that nobody reviewed (`AcceptanceRaces.NobodyApproved`), and the expiry job can
  expire one that was never reviewed (`AcceptanceRaces.ExpiresUnreviewed`).
  `AcceptanceRaces.OverlapsKeepTableIff` says exactly which overlaps keep every row
  accountable; the unique index holds whatever overlaps.
- Two overlapping edits of one remediation can leave a won't-fix row with a resolution date
  (`RemediationRaces.ResolvedAndWontFix`); `RemediationRaces.OverlapsKeepStoreIff` says
  exactly which overlaps keep every row consistent.
- The daily subscription email counts no event twice, but it can skip some. After more than
  30 days without an email its claim is gone and the window shrinks to one day
  (`SubscriptionDigest.QuietMonthSkips`); `SubscriptionDigest.NothingSkippedIff` says
  exactly when no time is skipped. Events are dated when the hourly diff began, so one that
  is stored after the digest of its window has read is never counted
  (`SubscriptionDigest.DigestOvertakesDiff`); `SubscriptionDigest.CountedOnceIff` says
  exactly which events are counted.

## Model

| member | source | states |
|---|---|---|
| Subscriptions.BuildState | backend/app/services/cve_subscription_service.py:117-149 | the loop builds `Build`: scores over all rows, locations of visible rows only, sorted scope |
| Subscriptions.DiffState | backend/app/services/cve_subscription_service.py:202-266 | the loops compute `Diff`: the stored state and the events, including the unknown-version and invisible-change branches |
| Subscriptions.Findings | backend/app/services/cve_subscription_service.py:240-266 | a pair has a new image, a new fix or is gone exactly when it is visible on both sides and the unrestricted rows say so |
| Subscriptions.AccessChangesAreSilent | backend/app/services/cve_subscription_service.py:202-266 | for all rows and visible sets, the location events equal those with both sides restricted to the common visible set |
| Subscriptions.SameRowsAreSilent | backend/app/services/cve_subscription_service.py:202-266 | the same rows under any two visible sets give no location event |
| Subscriptions.ScoresDoNotMatter | backend/app/services/cve_subscription_service.py:231-266 | location events read only scope and locations of the old state |
| SubscriptionLaws.ScoresAreGreatest | backend/app/services/cve_subscription_service.py:103-125 | each score of a snapshot is that of some row, seen or not, and no row has a higher one |
| SubscriptionLaws.IdentityIsUnpinned | backend/app/services/cve_subscription_service.py:108-114 | an image identity is the longest part of the pull spec without a digest pin |
| SubscriptionLaws.LocationIsSnapshot | backend/app/services/cve_subscription_service.py:131-138 | a location lists the unpinned images and the fixable components of its row, each once, in lexical order |
| SubscriptionLaws.SnapshotHoldsSeenRows | backend/app/services/cve_subscription_service.py:126-139 | the snapshot holds exactly the rows the subscriber sees, by cluster and namespace |
| SubscriptionLaws.ScopeIsListed | backend/app/services/cve_subscription_service.py:142 | the stored scope is everything, or exactly the visible pairs once each by namespace and cluster |
| SubscriptionLaws.RoundIsNearest | backend/app/services/cve_subscription_service.py:162-167 | a shown value is the nearest one with one decimal, the even one of two |
| SubscriptionLaws.ScoreEventIff | backend/app/services/cve_subscription_service.py:170-230 | on the fields of both states: one score event iff some location is visible and both severities are known and differ, or both CVSS values are known and differ at one decimal, or EPSS moved; its parameters and its scope |
| SubscriptionLaws.StoredIs | backend/app/services/cve_subscription_service.py:176-230 | what is stored after a diff, field by field: the new scope and locations, the new scores unless there are none, the anchor that was or was not moved |
| SubscriptionLaws.FoundAre | backend/app/services/cve_subscription_service.py:232-255 | when a pair has a new image, a new fix or is gone, on the location entries and scopes of both states |
| SubscriptionLaws.LocationEventsAre | backend/app/services/cve_subscription_service.py:240-266 | each kind of location event is emitted iff some pair produced it, and lists exactly the pairs that did, by cluster and namespace |
| SubscriptionRuns.StoredIsLastBuild | backend/app/services/cve_subscription_service.py:538-551 | after every run the stored scope and locations are those of the last build |
| SubscriptionRuns.RunAccessChangesAreSilent | backend/app/services/cve_subscription_service.py:512-570 | along every run the location events depend only on what was visible at this tick and the previous one |
| SubscriptionRuns.RepeatIsSilent | backend/app/services/cve_subscription_service.py:202-230 | diffing unchanged input emits nothing and changes nothing but a null anchor |
| SubscriptionRuns.AccessOnlyTick | backend/app/services/cve_subscription_service.py:202-230 | a tick in which only access changed is silent iff it does not make a pending EPSS move visible |
| SubscriptionRuns.AccessIsReported | backend/app/services/cve_subscription_service.py:202-230 | a run in which a change of access alone is reported: EPSS rose from 0.1 to 0.5 while nothing was visible |
| SubscriptionRuns.AnchorStep | backend/app/services/cve_subscription_service.py:170-230 | under the current version the anchor moves only with a score event or from null, and a score event sets it to the reported value |
| SubscriptionRuns.AnchorFollows | backend/app/services/cve_subscription_service.py:170-230 | after every run with a value and a visible location the anchor is within the notify delta and on the same side of the threshold |
| SubscriptionRuns.AnchorIsLastReported | backend/app/services/cve_subscription_service.py:176-199 | through any number of silent ticks the anchor stays the last reported value |
| SubscriptionRuns.NoSilentDrift | backend/app/services/cve_subscription_service.py:170-199 | slow drift accumulates: while nothing is reported a visible value stays near the last reported one |
| SubscriptionRuns.EventsStayInView | backend/app/services/cve_subscription_service.py:240-266 | events mention only pairs the subscriber sees now; gone pairs were stored and are no longer affected |
| SubscriptionDigest.RunDigest | backend/app/services/cve_subscription_service.py:597-668 | one digest run claims, purges and emails as `Next` says |
| SubscriptionDigest.CursorIsPast | backend/app/services/cve_subscription_service.py:602-616 | the cursor is never before the end of an earlier window, although deliveries are purged |
| DigestLaws.CursorIs | backend/app/services/cve_subscription_service.py:602-610 | a window begins at the last stored claim, or a day ago when there is none |
| DigestLaws.EmailIff | backend/app/services/cve_subscription_service.py:597-660 | a run emails iff the user wants mail, has none today, can be reached, and something visible happened since; the email counts these events and their distinct CVEs |
| DigestLaws.ClaimsAre | backend/app/services/cve_subscription_service.py:652-668 | claims are kept for 30 days, and a new one is dated at the email |
| DigestLaws.OneADay | backend/app/services/cve_subscription_service.py:625-668 | along every run no two emails go out on one day |
| SubscriptionDigest.RunKeepsInv | backend/app/services/cve_subscription_service.py:625-668 | every run with non-decreasing times keeps the windows ordered and the cursor past them |
| SubscriptionDigest.WindowsAreDisjoint | backend/app/services/cve_subscription_service.py:597-668 | no event lies in the windows of two emails to one user |
| SubscriptionDigest.CursorIsLastIff | backend/app/services/cve_subscription_service.py:602-616 | a window begins where the last one ended iff the last claim was not purged by an earlier run |
| SubscriptionDigest.NothingSkippedIff | backend/app/services/cve_subscription_service.py:597-668 | along every run, all times from the first window to the last are in some window iff no email follows a run that already purged the claim of the email before |
| SubscriptionDigest.QuietMonthSkips | backend/app/services/cve_subscription_service.py:602-616 | a run in which a visible, stored event of two days ago is in no window |
| SubscriptionDigest.OneWindow | backend/app/services/cve_subscription_service.py:597-668 | along every history of diffs and digests no time is in the windows of two emails |
| SubscriptionDigest.StoredIff | backend/app/services/cve_subscription_service.py:663-667 | a digest finds exactly the events stored before it and purged by no earlier run |
| SubscriptionDigest.EventCountedIff | backend/app/services/cve_subscription_service.py:597-668 | an event dated in the window of an email is counted by it iff it is visible and was stored when that run read, and by no other email |
| SubscriptionDigest.CountedOnceIff | backend/app/services/cve_subscription_service.py:597-668 | over every history exactly the visible events that were stored when the run of their window read are counted, each by one email |
| SubscriptionDigest.LateEventIsMissed | backend/app/services/cve_subscription_service.py:538-558 | an event committed after the run of its window is in no email, however the history goes on |
| SubscriptionDigest.DigestOvertakesDiff | backend/app/services/cve_subscription_service.py:538-558 | a history in which a digest between a diff's start and commit makes a visible, stored event uncounted |
| Versions.RpmVerCmp | backend/app/services/version_compare.py:51-75 | the segment loop with its early returns computes the lexicographic comparison of the segment lists |
| Versions.FirstDifferenceDecides | backend/app/services/version_compare.py:55-75 | the first position where the segments differ decides, with `~` below the end, below letters, below numbers |
| Versions.CompareSegmentsSign | backend/app/services/version_compare.py:51-75 | swapping the sides negates the sign, and it is zero exactly for equal segment lists |
| Versions.CompareSegmentsTransitive | backend/app/services/version_compare.py:51-75 | the segment order is transitive, strictly where one step is strict |
| Versions.RpmCompareTransitive | backend/app/services/version_compare.py:42-48 | with epochs it stays transitive |
| Versions.CompareVersionsSign | backend/app/services/version_compare.py:78-91 | the layered comparison is total and sign-antisymmetric on all strings |
| VersionLaws.NumberThen | backend/app/services/version_compare.py:25-54 | a whole digit run, of any length, is one segment with its value |
| VersionLaws.WordThen | backend/app/services/version_compare.py:25-54 | a whole letter run is one segment |
| VersionLaws.OtherThen | backend/app/services/version_compare.py:25-54 | every character but digits, letters and `~` only separates |
| VersionLaws.SegmentsOfBoth | backend/app/services/version_compare.py:25-54 | where no run is cut, the segments of two strings follow each other |
| VersionLaws.NumbersDecide | backend/app/services/version_compare.py:51-91 | versions that agree up to a numeric run are ordered by the values of the runs, of any length |
| VersionLaws.EqualNumbersGoOn | backend/app/services/version_compare.py:51-91 | equal values go on to what follows, leading zeros notwithstanding |
| VersionLaws.WordsDecide | backend/app/services/version_compare.py:51-91 | versions that agree up to a word are ordered by the words |
| VersionLaws.NumberAboveWord | backend/app/services/version_compare.py:51-91 | a number is newer than a word in its place |
| VersionLaws.TildeIsOlder | backend/app/services/version_compare.py:51-91 | `~` makes a version older than any ending without it |
| VersionLaws.LongerIsNewer | backend/app/services/version_compare.py:51-91 | any other ending makes it newer |
| VersionLaws.EpochIs | backend/app/services/version_compare.py:42-48 | digits before the first colon are the epoch, whatever their number |
| VersionLaws.VIsDropped | backend/app/services/version_compare.py:42-48 | a `v` before a digit is dropped |
| VersionLaws.EpochDecides | backend/app/services/version_compare.py:78-91 | different epochs decide before anything else |
| VersionLaws.NoEpochIsZero | backend/app/services/version_compare.py:78-91 | a missing epoch is older than every positive one |
| VersionLaws.EqualEpochsGoOn | backend/app/services/version_compare.py:78-91 | under equal epochs the remainders are compared |
| VersionLaws.KeysDecide | backend/app/services/version_compare.py:78-87 | two PEP 440 versions are ordered by their keys |
| VersionLaws.LooksLikePackageIff | backend/app/services/version_compare.py:26 | a string has the package shape iff it splits into an epoch, a `v`, a digit and a tail as the regular expression says |
| VersionLaws.ComparableIff | backend/app/services/version_compare.py:36-39 | a trimmed string is comparable iff it is PEP 440 or has the package shape |
| Versions.TransitiveIff | backend/app/services/version_compare.py:78-91 | it is transitive on a set of strings iff PEP 440 and RPM order agree wherever another version lies between two PEP 440 ones |
| Versions.OneClassIsOrdered | backend/app/services/version_compare.py:78-91 | it is a total preorder on strings that are all PEP 440 or all not |
| Versions.MixedCycle | backend/app/services/version_compare.py:78-91 | pre-release < release < custom build < pre-release, for every such triple of versions like 1.0rc1, 1.0 and 1.0-foo |
| Versions.ReleaseCycle | backend/app/services/version_compare.py:78-91 | 1.0rc1 < 1.0 < 1.0-foo < 1.0rc1 for every PEP 440 order of these |
| Versions.MixedHasNoHighest | backend/app/services/version_compare.py:78-91 | of three versions in such a cycle none is at least as high as the others |
| Targets.CycleIsMisranked | backend/app/services/version_compare.py:94-109 | candidates that form a cycle of comparable versions are ranked without uncertainty, and one of them is above the best |
| Targets.ReleaseIsMisranked | backend/app/services/version_compare.py:94-109 | so it is with 1.0rc1, 1.0 and 1.0-foo |
| Versions.RankPermutes | backend/app/services/version_compare.py:94-109 | the ranking lists each stripped candidate once, comparable ones first; it is uncertain iff one is not comparable, and its best is the first comparable one |
| Versions.RankDependsOnSet | backend/app/services/version_compare.py:94-109 | the ranking depends only on the set of stripped candidates |
| Targets.RankedInTurn | backend/app/services/version_compare.py:94-109 | down the ranking a comparable version is never newer than the one above it, and lexically later where they tie; the others come in lexical order |
| Highest.AnySortIffSettled | backend/app/services/version_compare.py:94-109 | for every total comparison: each order with neighbours in place begins with a highest element iff some element is highest and whatever ties with a highest one is highest |
| Highest.AlwaysHighestIffTransitive | backend/app/services/version_compare.py:94-109 | for every total comparison: every selection is sorted with a highest element first iff the comparison is transitive |
| Highest.SortMayReturn | backend/app/services/version_compare.py:106-107 | insertion sort by any total comparison leaves neighbours in place |
| Targets.AnySortIsHighestIff | backend/app/services/version_compare.py:94-109 | whatever comparison sort is used, the best candidate is at least as high as every comparable one iff the candidates are settled |
| Targets.AgreeIffAlwaysHighest | backend/app/services/version_compare.py:94-109 | every selection from a set of versions gets a highest best version iff PEP 440 and RPM order agree on the set |
| Targets.BestIsHighestIff | backend/app/services/version_compare.py:94-109 | the best version is at least as high as every comparable candidate iff some highest one is strictly above all lexically smaller ones |
| Versions.PickFixedBy | backend/app/services/version_compare.py:117-127 | the ranking's best when there is one, else the lexically greatest candidate, and nothing only when all are blank |
| FixRollup.AggregateComponentRows | backend/app/services/fix_rollup_service.py:62-119 | the accumulator loop computes the items of `Accumulate`, all their fields included |
| FixRollup.ItemShows | backend/app/services/fix_rollup_service.py:94-119 | an item lists its CVEs prioritized, most severe and most exploitable first, its namespaces and its images by name, dropping none |
| FixRollup.UsesAreFolded | backend/app/services/fix_rollup_service.py:86-91 | images, deployments and namespaces of an item are those of all visible rows of the component |
| FixRollup.UsesAreMentioned | backend/app/services/fix_rollup_service.py:86-91 | exactly the non-empty ids and names these rows mention, one name per image |
| FixRollup.MaxOf | backend/app/services/fix_rollup_service.py:109-111 | the maximum is attained by a CVE and exceeded by none |
| RollupLaws.EntriesReflectRows | backend/app/services/fix_rollup_service.py:65-85 | the entries of an item are exactly its current rows: own fixability, own ranked fix versions, and what the list knows of the CVE |
| RollupLaws.ItemCounts | backend/app/services/fix_rollup_service.py:94-108 | the total, fixable, prioritized and critical counts are the numbers of CVE ids whose current visible row for the component is such |
| RollupLaws.ItemMaxima | backend/app/services/fix_rollup_service.py:109-111 | the maxima of severity, CVSS and EPSS, each over its own field, are attained by a reported CVE and exceeded by none |
| RollupPlaces.ItemPlaces | backend/app/services/fix_rollup_service.py:86-117 | an item lists each image under its first mention's name, or its id when that is empty, and exactly the namespaces, and counts exactly the images and deployments, that its component's visible rows mention |
| RollupPlaces.ItemIsOrdered | backend/app/services/fix_rollup_service.py:94-118 | on the fields of two listed CVEs: prioritized first, then the more severe, then the likelier exploited; images and namespaces by name |
| FixRollup.RowIsAccumulated | backend/app/services/fix_rollup_service.py:66-91 | a visible row that no later row replaces is exactly the entry of its component and CVE |
| FixRollup.EntryIffReported | backend/app/services/fix_rollup_service.py:65-91 | a component and CVE have an entry iff a visible row reports them |
| FixRollup.ItemHoldsReported | backend/app/services/fix_rollup_service.py:62-91 | an item counts each CVE once, and holds one iff a visible row reports it for the component |
| FixRollup.ItemsUnique | backend/app/services/fix_rollup_service.py:64-73 | one item per component |
| FixRollup.CandidatesAreFixVersions | backend/app/services/fix_rollup_service.py:74-97 | an item ranks exactly the versions that its component's current fixable rows list |
| FixRollup.UncertainIff | backend/app/services/fix_rollup_service.py:97-104 | an item is uncertain iff some fix version is not comparable, and has a target iff some is; the target is one of them |
| FixRollup.TargetFixesIff | backend/app/services/fix_rollup_service.py:74-104 | the target of an item that is not uncertain is at least as high as every fix version iff some highest one is strictly above all lexically smaller ones |
| FixRollup.AnyTargetFixesIff | backend/app/services/fix_rollup_service.py:74-104 | whatever comparison sort is used, it is iff the fix versions are settled |
| FixRollup.TargetFixesEverything | backend/app/services/fix_rollup_service.py:74-104 | it is when PEP 440 and RPM order agree on the fix versions |
| FixRollup.CycleItemMisses | backend/app/services/fix_rollup_service.py:74-104 | an item whose fix versions form a cycle is not uncertain and misses one of them |
| FixRollup.ReleaseItemMisses | backend/app/services/fix_rollup_service.py:74-104 | so does the item of a component with three CVEs fixed by 1.0rc1, 1.0 and 1.0-foo |
| FixRollup.SortItemsPermutes | backend/app/services/fix_rollup_service.py:122-130 | the four passes keep the items |
| FixRollup.SortItemsShown | backend/app/services/fix_rollup_service.py:122-130 | the four stable passes order by priority, then the chosen key, then EPSS descending, then name and version |
| RollupLaws.ItemsAreListed | backend/app/services/fix_rollup_service.py:122-130 | two listed items: prioritized first, then by the field the sort key names in the asked direction, then EPSS descending, then name and version |
| Comments.TokenAt | backend/app/services/comment_content.py:22 | a token has a non-empty name free of `]` and spells `@[name]` |
| Comments.NextToken | backend/app/services/comment_content.py:48-50 | the leftmost token at or after a position, or none |
| Comments.ParseMessage | backend/app/services/comment_content.py:30-61 | the scanner that extends the last segment in place computes `Parse` |
| Comments.SegmentsToMessage | backend/app/services/comment_content.py:64-72 | the printing loop computes `Print` |
| Comments.MentionUserIds | backend/app/services/comment_content.py:88-100 | mentioned ids in order of first mention, each once |
| Comments.ListedIsMentioned | backend/app/services/comment_content.py:88-100 | every listed id is mentioned |
| Comments.MentionIsListed | backend/app/services/comment_content.py:88-100 | every mentioned user with an id is listed |
| Comments.MentionedInOrder | backend/app/services/comment_content.py:88-100 | ids are listed in the order of their first mentions |
| Comments.ParseMinimal | backend/app/services/comment_content.py:30-61 | the parser never yields empty or adjacent text segments |
| Comments.PrintOfParse | backend/app/services/comment_content.py:30-72 | printing a parse gives the message back, character for character except the case of resolved names |
| Comments.FaithfulRoundTrip | backend/app/services/comment_content.py:30-72 | faithful segments survive printing and parsing |
| Comments.ParseIsFaithful | backend/app/services/comment_content.py:30-72 | the parser yields only faithful segments |
| Comments.RoundTripIff | backend/app/services/comment_content.py:30-72 | segments survive printing and parsing iff they are faithful |
| Comments.ParseIsIdempotent | backend/app/services/comment_content.py:30-72 | parse, print, parse equals parse |
| Comments.PlainTextSurvives | backend/app/services/comment_content.py:22 | text without `@[` is faithful wherever it stands |
| Alerts.ClassifyCandidates | backend/app/services/team_notifications.py:112-137 | the keys are exactly those of alert-worthy candidates, reason by reason |
| Alerts.PlanUserAlerts | backend/app/services/team_notifications.py:147-163 | one alert per CVE and reason with exactly the recipient's namespaces that have the key, in their order; prioritized ones first, then by CVE |
| Alerts.PlanIsUnique | backend/app/services/team_notifications.py:147-163 | the plan does not depend on the order in which the new keys are met |
| Alerts.SendUserAlerts | backend/app/services/team_notifications.py:166-196 | per wanted reason single notifications, or one summary when there are more than ten |
| Alerts.CapDropsNoLocation | backend/app/services/team_notifications.py:166-196 | a reason sends at most ten notifications, and they mention exactly the locations of its alerts |
| AlertLaws.KeysAre | backend/app/services/team_notifications.py:112-137 | which of the four keys a location has: an unsuppressed row that is critical, critical and fixable, prioritized, or not |
| AlertLaws.BaselinesAre | backend/app/services/team_notifications.py:105-107 | the critical conditions share one baseline, everything else the other |
| AlertLaws.PlanIsInView | backend/app/services/team_notifications.py:147-163 | an org-wide user is alerted of nothing, anyone else of exactly the CVEs and reasons that a namespace of theirs has |
| AlertLaws.PlacesAre | backend/app/services/team_notifications.py:147-163 | an alert lists exactly the namespaces of the recipient that have its key |
| AlertLaws.PlanIsOrdered | backend/app/services/team_notifications.py:147-163 | prioritized CVEs come first, and each group goes by CVE |
| AlertLaws.SentIs | backend/app/services/team_notifications.py:166-196 | what a wanted reason sends, alert by alert: up to ten single notifications, else one summary with the number of CVEs and all their namespaces |
| AlertLaws.NotificationsAreInView | backend/app/services/team_notifications.py:147-196 | nobody is told of a namespace that is not theirs or has no new key of the reason |
| AlertLaws.ToldIff | backend/app/services/team_notifications.py:362-370 | over a whole run a user is told of a place in the app for a reason iff they want that, the reason is a prioritized or a visible CVE, and a namespace of their own is that place and has a new key of the reason |
| AlertLaws.CountsAreInView | backend/app/services/team_notifications.py:224-270 | the counts of an email are those of the keys in the namespaces of the recipient, all for an org-wide one: the distinct CVEs of each reason when wanted, else zero |
| AlertLaws.NewsIff | backend/app/services/team_notifications.py:209-248 | there is news for a recipient iff some key in their view is of a wanted reason |
| AlertLaws.OwedIff | backend/app/services/team_notifications.py:224-270 | exactly the reachable recipients with a wanted key in view are owed an email |
| Alerts.AlertStore.ClaimAlertEmails | backend/app/services/team_notifications.py:251-290 | one job and one claim for exactly the owed users without a claim today, with their own counts |
| Alerts.AlertStore.ApplyAlertDiff | backend/app/services/team_notifications.py:330-380 | the new marks, the keys to notify, the in-app notifications of every recipient's plan, the purged and added claims, the emails with their counts |
| Alerts.MarksForgetThePast | backend/app/services/team_notifications.py:338-354 | adding missing baselines and new keys and deleting stale ones leaves the current keys and the baselines, whatever was stored |
| Alerts.ClaimsAreSent | backend/app/services/team_notifications.py:251-290 | a run that claims for exactly the owed users, one email each, is a step of the daily cap, so the alert job obeys it |
| Alerts.MarksAreCurrent | backend/app/services/team_notifications.py:330-354 | after every run the marks are the current keys and the two baselines |
| Alerts.NotifiesOnRisingEdge | backend/app/services/team_notifications.py:330-362 | a key notifies iff it is current, was not at the run before, and its own baseline was stored before |
| Alerts.NotificationsAreRisingEdges | backend/app/services/team_notifications.py:330-362 | over a whole run a key notifies once per rising edge after its baseline |
| Alerts.FirstRunIsSilent | backend/app/services/team_notifications.py:330-362 | while a kind of alert has no baseline it notifies nothing, and from the next run on it notifies its rising edges |
| DailyCap.SentOnce | backend/app/services/team_notifications.py:356-360 | what was sent and could be sent again is still recorded, despite the purge |
| DailyCap.OneEmailPerDay | backend/app/services/team_notifications.py:251-290 | over every run at most one email is sent per user and day |
| DailyCap.ClaimsAfter | backend/app/services/team_notifications.py:251-290 | after a run the claims are those of the last 30 days and one for each owed user; emails go to the owed users without a claim |
| NotificationSummary.PlanCounts | backend/app/services/notification_summary_service.py:116-136 | the counting loop computes the tally of wanted events and the live counts |
| NotificationSummary.PlanSummary | backend/app/services/notification_summary_service.py:164-189 | the recipient loop computes the plan: what it consumes and whom it emails |
| NotificationSummary.PlanConsumes | backend/app/services/notification_summary_service.py:139-190 | a plan consumes exactly the events read for the recipients it evaluated |
| NotificationSummary.PlanIsOk | backend/app/services/notification_summary_service.py:139-190 | the emails of a plan share no event, use only consumed ones, and go to users not yet emailed |
| NotificationLaws.OverdueIsCounted | backend/app/services/notification_summary_service.py:104-113 | the overdue count is the number of remediations created by or assigned to the recipient at a location they may see |
| NotificationLaws.CountsAre | backend/app/services/notification_summary_service.py:116-136 | the counts of a summary, key by key: the live ones when wanted, else how often each message of a wanted category is queued |
| NotificationLaws.EmailIs | backend/app/services/notification_summary_service.py:164-189 | an email counts the messages queued for its user, and comes from exactly those events |
| NotificationLaws.EmailedIff | backend/app/services/notification_summary_service.py:164-189 | an email is planned for exactly the recipients without one today who can be reached and have something to count |
| NotificationSummary.CommitKeepsInv | backend/app/services/notification_summary_service.py:190-203 | committing a plan keeps every event in exactly one place although writers added events since |
| NotificationSummary.RunKeepsInv | backend/app/services/notification_summary_service.py:139-203 | every interleaving of writers, reads, commits and aborts keeps the queue invariant |
| NotificationSummary.NothingLostOrCountedTwice | backend/app/services/notification_summary_service.py:139-203 | under every interleaving each event ever queued is in exactly one of queue, evaluated and expired, is counted in at most one email, and nobody is emailed twice a day |
| NotificationSummary.LeavesForAReason | backend/app/services/notification_summary_service.py:190-203 | an event leaves the queue only in a commit, because its user was evaluated by the run that read it or because it is older than 14 days |
| NotificationLaws.CommitLeaves | backend/app/services/notification_summary_service.py:190-203 | a commit keeps exactly the events that were not evaluated and are at most 14 days old, and the claims of the last 30 days with its own |
| SnapshotProtocol.StepKeepsInv | backend/app/stackrox/namespace_access.py:141-274 | every action keeps lock, query and log invariants |
| SnapshotProtocol.RunKeepsInv | backend/app/stackrox/namespace_access.py:141-274 | so does every interleaving from the start |
| SnapshotProtocol.OneQueryInFlight | backend/app/stackrox/namespace_access.py:157-218 | at most one query is in flight, loop included |
| SnapshotProtocol.PublishesInOrder | backend/app/stackrox/namespace_access.py:141-187 | each published query started after the previous publish |
| SnapshotProtocol.RequestsHoldBack | backend/app/stackrox/namespace_access.py:190-218 | no request queries once a snapshot exists or within 30 seconds of a recorded failure |
| SnapshotProtocol.ServedIsFresh | backend/app/stackrox/namespace_access.py:221-254 | only the last published snapshot is served, and never one older than 15 minutes |
| SnapshotProtocol.WarmArrivalIsAnswered | backend/app/stackrox/namespace_access.py:236-254 | along every trace, a request that finds a snapshot logs exactly one answer from it when it is at most 15 minutes old, nothing otherwise, and changes nothing else |
| SnapshotProtocol.ColdArrivalWaits | backend/app/stackrox/namespace_access.py:190-203 | a request that finds none waits two seconds for the lock, unless a load failed in the last 30 seconds |
| SnapshotProtocol.WaitingRequestActs | backend/app/stackrox/namespace_access.py:203-210 | a waiting request that gets the lock is answered when a snapshot came meanwhile, gives up when a load failed, and else queries |
| SnapshotProtocol.LoadIsPublished | backend/app/stackrox/namespace_access.py:141-187 | a finished query is published with its own start, clears the failure and keeps the lock |
| SnapshotProtocol.LoaderIsAnswered | backend/app/stackrox/namespace_access.py:209-254 | the request that loaded is answered from what it loaded, and frees the lock |
| SnapshotProtocol.UnansweredRequests | backend/app/stackrox/namespace_access.py:201-218 | a request that fails or times out is recorded as a failed load, one whose client left is not |
| SnapshotProtocol.LoopRefreshes | backend/app/stackrox/namespace_access.py:257-274 | the loop publishes what it loaded and sleeps five minutes, or thirty seconds when something went wrong |
| SnapshotProtocol.NobodyIsStuck | backend/app/stackrox/namespace_access.py:190-274 | whoever holds the lock can let go, and a request past its deadline can be ended |
| SnapshotProtocol.SnapshotNeverGoesBack | backend/app/stackrox/namespace_access.py:141-146 | the load time never decreases and a snapshot never disappears |
| NamespaceAccess.PeerClusters | backend/app/stackrox/namespace_access.py:75-86 | exactly the other clusters that share an access set with the origin |
| NamespaceAccess.BuildAccessIndex | backend/app/stackrox/namespace_access.py:89-116 | the index holds a namespace under a name iff a usable row lists that name after trim and lower-case |
| NamespaceAccess.NamespacesFor | backend/app/stackrox/namespace_access.py:119-138 | sorted and duplicate-free, exactly the listed pairs on peer clusters |
| NamespaceAccess.Resolve | backend/app/stackrox/namespace_access.py:75-138 | index, peers and lookup together return exactly the pairs a scan of the rows grants, sorted and once each |
| NamespaceAccess.NamesAreListed | backend/app/stackrox/namespace_access.py:89-93 | a comma-separated annotation lists a name iff some part equals it after trim and lower-case |
| NamespaceAccess.GrantedIff | backend/app/stackrox/namespace_access.py:75-138 | a pair is granted iff its cluster shares an access set with the origin and a row of it lists the user or one of the groups, on strings |
| Suppression.MatchesComponentRule | backend/app/services/cve_filter_service.py:58-67 | some component has the rule's name and matches its version pattern |
| Suppression.IsCveSuppressedByRules | backend/app/services/cve_filter_service.py:70-111 | a global rule, or scoped rules that cover every visible location of at least one |
| Suppression.IsLocationSuppressed | backend/app/services/cve_filter_service.py:114-139 | a CVE rule covers the location or a component rule matches in it |
| Suppression.LocationSuppressedIff | backend/app/services/cve_filter_service.py:114-139 | in full: a rule of the CVE without scope, for everyone or for this location, or a component present here that a rule names and whose version it matches |
| Suppression.ComputeSuppressedCves | backend/app/services/cve_filter_service.py:150-185 | the hidden CVEs are exactly those the list's rules hide |
| Suppression.ListHidesIff | backend/app/services/cve_filter_service.py:150-185 | the list hides a visible CVE iff CVE rules cover all its locations or a component rule matches in one of them, also when its locations were not looked up |
| Suppression.LookupsFit | backend/app/services/cve_filter_service.py:315-334 | the component and location lookups, the latter only for CVEs that some rule names, are about exactly the viewer's rows wherever the decision uses them |
| Suppression.ComputeSuppressionSets | backend/app/services/cve_filter_service.py:284-351 | a listed CVE with a visible row is in the approved or requested set iff the rules of that status hide it |
| Suppression.HiddenIff | backend/app/services/cve_filter_service.py:114-139 | what the list hides and what all locations suppress agree iff the components do not split |
| Suppression.SuppressedEverywhereIsHidden | backend/app/services/cve_filter_service.py:114-185 | a CVE suppressed in every visible location is hidden by the list |
| Suppression.DecisionsAgreeIff | backend/app/services/cve_filter_service.py:114-185 | the list hides a CVE exactly when all its visible locations are suppressed, unless a component rule matches in one while another is not suppressed |
| Suppression.CveRulesAgree | backend/app/services/cve_filter_service.py:70-185 | without component rules the list and the locations agree |
| Suppression.SplitComponentsDisagree | backend/app/services/cve_filter_service.py:114-185 | with components split over two locations the list hides a CVE that one location does not suppress |
| Remediations.Remediation.SetStatus | backend/app/services/remediation_service.py:178-209 | the assignments compute `ApplyStatus`, and a refusal assigns nothing |
| Remediations.Remediation.Edit | backend/app/services/remediation_service.py:168-256 | the field edits compute `Update`, with its errors in order |
| Remediations.RemediationTable.CreateRemediations | backend/app/services/remediation_service.py:75-131 | the whole batch or nothing, with the error of the first failing check |
| Remediations.RemediationTable.PatchRemediation | backend/app/routers/remediations.py:241-258 | a rejected edit leaves the table as it was |
| Remediations.RemediationTable.DeleteRemediation | backend/app/routers/remediations.py:261-281 | only open or won't-fix rows, by creator or security team |
| Remediations.RemediationTable.RunAutoResolve | backend/app/tasks/scheduler.py:542-593 | resolves exactly the open and in-progress rows whose CVE is gone |
| Remediations.CreateAllOrNothing | backend/app/services/remediation_service.py:75-131 | a batch adds one open row per distinct pair, or nothing at all, and touches no other row |
| Remediations.UpdateKeepsRow | backend/app/services/remediation_service.py:178-256 | an accepted edit leaves status and status-coupled fields consistent and the key alone |
| Remediations.CommitKeepsStore | backend/app/models/remediation.py:20-30 | every committed step keeps one row per CVE and location and every row consistent |
| Remediations.RunsKeepStore | backend/app/services/remediation_service.py:34-49 | so does every run from the empty store; no row is ever verified |
| Remediations.PatchStep | backend/app/services/remediation_service.py:34-49 | an accepted edit follows a listed transition, and edits fields only of a row that was or becomes editable |
| WorkflowLaws.EditIff | backend/app/services/remediation_service.py:168-256 | an edit is accepted iff it asks for an allowed change, with a reason for won't fix, edits fields only of a row that is or becomes active, names a known user and sets no new date in the past |
| WorkflowLaws.EditWrites | backend/app/services/remediation_service.py:178-256 | every column an accepted edit leaves |
| WorkflowLaws.RequestIff | backend/app/services/remediation_service.py:75-256 | exactly when a creation, an edit or a deletion succeeds |
| WorkflowLaws.NewRowsAre | backend/app/services/remediation_service.py:106-131 | a new row is open, about one of the targets, with what the request said |
| WorkflowLaws.JobResolves | backend/app/tasks/scheduler.py:542-593 | the nightly job resolves exactly the active rows whose CVE is gone, without a resolver, and appends its note |
| Remediations.StepOfRow | backend/app/services/remediation_service.py:34-49 | over any committed step a row follows a listed transition or the nightly job |
| Remediations.RowsLeaveByDeletion | backend/app/routers/remediations.py:261-281 | rows disappear only by deletion, while open or won't-fix |
| RemediationRaces.UndisturbedCommit | backend/app/routers/remediations.py:241-258 | without an overlap, writing only the changed columns writes what was decided |
| RemediationRaces.LateCommitIff | backend/app/services/remediation_service.py:178-209 | a late commit leaves a consistent row iff its status change still fits the committed one |
| RemediationRaces.OverlapsKeepStoreIff | backend/app/routers/remediations.py:241-258 | along every interleaving of loads and commits the store stays consistent iff no commit writes a status change that no longer fits |
| RemediationRaces.ResolvedAndWontFix | backend/app/services/remediation_service.py:34-46 | two edits of one in-progress row that end with a won't-fix row that has a resolution date |
| Scopes.ValidateAndResolve | backend/app/services/risk_acceptance_service.py:97-158 | the loop that validates, deduplicates and sorts computes `Normalize`, with the error of the first refused target |
| Scopes.CoversByKey | backend/app/services/risk_acceptance_service.py:64-94 | a deployment is covered iff its key is among the scope's keys |
| Scopes.StoredByKey | backend/app/services/risk_acceptance_service.py:107-150 | targets are stored alike iff their keys are equal, and storing keeps keys and is idempotent |
| Scopes.NormalizeKeepsKeys | backend/app/services/risk_acceptance_service.py:97-158 | normalising keeps the key set |
| Scopes.NormalizeIsCanonical | backend/app/services/risk_acceptance_service.py:97-158 | two valid requests of one mode normalise alike iff their key sets are equal |
| Scopes.NormalizeIsIdempotent | backend/app/services/risk_acceptance_service.py:97-158 | a normalised scope normalises to itself |
| Scopes.NormalizeKeepsCoverage | backend/app/services/risk_acceptance_service.py:64-158 | every deployment is covered after iff it was covered before |
| Scopes.SingleTeamCoversOneNamespace | backend/app/services/risk_acceptance_service.py:15-26 | a single-team result covers deployments of one namespace and cluster only |
| WorkflowLaws.ByIdIsLast | backend/app/services/risk_acceptance_service.py:99 | a deployment target stands for the last affected deployment with its id |
| WorkflowLaws.ScopeAcceptedIff | backend/app/services/risk_acceptance_service.py:97-158 | a scope of valid shape is accepted iff every target names something the CVE affects |
| WorkflowLaws.RefusedIs | backend/app/services/risk_acceptance_service.py:97-158 | the first target that names nothing decides the error, and which error it is |
| WorkflowLaws.AcceptedIs | backend/app/services/risk_acceptance_service.py:97-158 | an accepted scope stores exactly what stands for its targets, field by field, once each, by cluster and namespace and then by deployment id or image |
| WorkflowLaws.SingleTeamIff | backend/app/services/risk_acceptance_service.py:15-26 | a scope is single-team iff it has targets, all in one namespace of one cluster |
| Acceptances.AcceptanceTable.CreateAcceptance | backend/app/routers/risk_acceptances.py:105-167 | the handler commits as `Commit` says or changes nothing |
| Acceptances.AcceptanceTable.ModifyAcceptance | backend/app/routers/risk_acceptances.py:247-317 | likewise; the reviewer is reset and the status follows the new scope |
| Acceptances.AcceptanceTable.ReviewAcceptance | backend/app/routers/risk_acceptances.py:320-393 | only requested rows, only by the security team, and the index still holds |
| Acceptances.AcceptanceTable.CancelAcceptance | backend/app/routers/risk_acceptances.py:446-473 | creator or security team, and the index still holds |
| Acceptances.AcceptanceTable.ExpireAcceptances | backend/app/tasks/scheduler.py:36-77 | exactly the approved rows past their expiry expire |
| Acceptances.StepKeepsTable | backend/app/models/risk_acceptance.py:26-36 | every committed step keeps one active row per CVE and scope, and every row accountable |
| Acceptances.RunsKeepTable | backend/app/routers/risk_acceptances.py:125-151 | so does every run: approved rows have a reviewer or a single-team scope, rejected rows a reviewer |
| Acceptances.IndexAfterPut | backend/app/models/risk_acceptance.py:26-36 | an active row can be stored iff no other active row has its key |
| Acceptances.IndexNeededIff | backend/app/routers/risk_acceptances.py:265-301 | with a fresh duplicate check the index is violated iff a rejected acceptance is modified under its unchanged key while another active one has that key |
| Acceptances.IndexIsNeeded | backend/app/routers/risk_acceptances.py:275-285 | a run that reaches that case |
| WorkflowLaws.HandledIff | backend/app/routers/risk_acceptances.py:105-473 | a request is handled, up to the index, exactly under these conditions on caller, row and scope |
| WorkflowLaws.HandledDoes | backend/app/routers/risk_acceptances.py:105-473 | what a handled and committed request leaves in the table |
| WorkflowLaws.AcceptanceStep | backend/app/routers/risk_acceptances.py:105-473 | over any committed step a row changes, appears or disappears only by its owner, the security team or the expiry job, and how |
| AcceptanceRaces.UndisturbedCommit | backend/app/routers/risk_acceptances.py:247-393 | without an overlap, writing only the changed columns writes what was decided |
| AcceptanceRaces.LateCommitIff | backend/app/routers/risk_acceptances.py:291-301 | a late commit leaves an accountable row iff its decision still fits the committed one |
| AcceptanceRaces.OverlapsKeepIndex | backend/app/models/risk_acceptance.py:26-36 | under every interleaving of loads and commits at most one active acceptance exists per CVE and scope |
| AcceptanceRaces.OverlapsKeepTableIff | backend/app/routers/risk_acceptances.py:247-393 | along every interleaving every row stays accountable iff no commit writes a decision that no longer fits |
| AcceptanceRaces.NobodyApproved | backend/app/routers/risk_acceptances.py:291-301 | a run of overlapping requests that ends with an approved acceptance for all teams without a reviewer |
| AcceptanceRaces.ExpiresUnreviewed | backend/app/tasks/scheduler.py:36-77 | a self-approved acceptance is widened while the expiry job holds it, and expires unreviewed |
| Escalations.PickIsStrictest | backend/app/services/escalation_rules.py:39-49 | the pick matches, no matching rule is stricter, and there is one whenever a rule matches |
| Escalations.PickIsMonotone | backend/app/services/escalation_rules.py:31-49 | raising severity or EPSS never picks a less strict rule |
| Escalations.PickAsksMost | backend/app/services/escalation_rules.py:31-49 | no matching rule asks for a higher severity than the pick, or for the same severity and a higher EPSS |
| Escalations.LevelDeadlines | backend/app/services/escalation_rules.py:52-74 | a level has a deadline iff a configured anchor has a time, and it is the earliest |
| Escalations.DeadlineIsEarliest | backend/app/services/escalation_rules.py:52-74 | the deadline is the earliest of so many days after the first sighting and after the fix, each when configured and known |
| Escalations.AnchorsByCve | backend/app/services/escalation_preview.py:54-64 | lowering the entries in place leaves the earliest times per CVE |
| Escalations.AnchorsAreEarliest | backend/app/services/escalation_preview.py:54-64 | an anchor is the earliest time among the rows of the CVE that have one |
| Escalations.EarliestIsLeast | backend/app/services/escalation_rules.py:52-74 | absent iff absent on every row, otherwise attained and least |
| Escalations.DeadlinesDistribute | backend/app/services/escalation_preview.py:54-64 | deadlines from a CVE's earliest anchors are, per level, the earliest of its rows' own deadlines |
| CellLines.FillCell | backend/app/exports/excel_generator.py:177-197 | everything, or the longest prefix that leaves room and a label with the exact number omitted; within 32,767 characters and 250 lines when no value breaks a line and the label fits |
| CellLines.LimitsAre | backend/app/exports/excel_generator.py:177-197 | what fits, on the cell as it reads: 250 lines and 32,767 characters, 249 lines before a label |
| CellLines.LinesAreValues | backend/app/exports/excel_generator.py:177-197 | splitting the cell into lines gives the values back |
| CellLines.DigitsSpell | backend/app/exports/excel_generator.py:188-197 | the decimal digits of a number read back as the number |
| CellLines.DigitsMonotone | backend/app/exports/excel_generator.py:188-197 | a smaller number never needs more digits, so reserving for the larger count is enough |
| CellLines.LabelledSize | backend/app/exports/excel_generator.py:177-197 | the labelled cell fits whenever the reserved one does |
| HeaderCodec.ParseNamespacesHeader | backend/app/auth/middleware.py:28-47 | the parse of the list, or an error when it is over the limit |
| HeaderCodec.ParseNamespaceEmailsHeader | backend/app/auth/middleware.py:64-81 | the loop computes the parse of the contact list, skipping malformed entries |
| HeaderLaws.PairReadIs | backend/app/auth/middleware.py:28-47 | on every entry with a colon: the namespace before the first colon and the cluster after it, trimmed, or nothing when one of them is blank |
| HeaderLaws.ContactReadIs | backend/app/auth/middleware.py:64-81 | on every contact entry: a pair before the last equals sign and a trimmed, non-blank email after it, or nothing |
| HeaderCodec.NamespacesRoundTripIff | backend/app/auth/middleware.py:28-42 | the backend recovers exactly the printed pairs iff all names are non-empty, trimmed, without comma, and the namespaces without colon |
| HeaderCodec.EmailsRoundTripIff | backend/app/auth/middleware.py:64-81 | the backend recovers exactly the printed contacts iff in addition the emails are non-empty, trimmed, without comma and equals sign |
| HeaderCodec.MergeNamespaces | backend/app/auth/middleware.py:50-61 | the header's own pairs first, then each new cross-cluster pair once |
| HeaderInjector.AppendNew | auth-header-injector/main.go:551-563 | the merge loop keeps the user's list and appends each new name once |
| HeaderInjector.NamespaceHeaders | auth-header-injector/main.go:526-574 | the two list headers: everything for a wildcard group, else the resolved lists |
| HeaderLaws.NamespacesAre | auth-header-injector/main.go:143-170 | the resolved namespaces are those the cache lists for the user, and for one of the trimmed groups, whatever the case; none from a cache that is too old |
| HeaderLaws.ListsAre | auth-header-injector/main.go:526-574 | everything for a member of a configured group, else the two printed lists |
| HeaderLaws.GroupsAre | auth-header-injector/main.go:509-524 | the groups are those of the token's owner, or the non-empty trimmed names of a trusted forwarded list when the owner has none |
| HeaderInjector.Request.Handle | auth-header-injector/main.go:432-588 | every header of the forwarded request, and which requests are refused or dropped |
| HeaderLaws.DecisionIs | auth-header-injector/main.go:432-508 | nobody without a user, refused when the lookup fails, dropped when the client left, else forwarded for the user of the token |
| HeaderLaws.IdentifiedGets | auth-header-injector/main.go:432-588 | the six protected headers of an identified user |
| HeaderLaws.AnonymousGetsNothing | auth-header-injector/main.go:432-453 | the same headers for a request without a user |
| HeaderInjector.RewriteIgnoresInbound | auth-header-injector/main.go:432-588 | without the fallback two requests of one user and token get the same protected headers |
| HeaderInjector.FallbackIsInfluence | auth-header-injector/main.go:509-524 | with the fallback an inbound group header decides what is sent |
| HeaderInjector.ClientCannotInfluenceIff | auth-header-injector/main.go:432-588 | the protected headers are a function of user, resolved information, cache and configuration iff the handler does not fall back to inbound groups |
| HeaderInjector.BackendReadsResolved | auth-header-injector/main.go:565-573 | the backend reads exactly the namespaces the handler resolved iff their names are clean |
| HeaderInjector.BackendReadsContacts | auth-header-injector/main.go:565-574 | it reads exactly the contacts of those namespaces iff names and emails are clean |
| HeaderInjector.ContactsAreKnown | auth-header-injector/main.go:567-572 | contacts are sent for exactly the resolved namespaces with a known email |

## Left out

- Subscriptions: the per-user flood cap of in-app notifications (`_flush_user_events`), batching, and events broadcast by other services; the job is modelled for one subscription.
- SubscriptionDigest: runs of the digest are atomic with non-decreasing times, one user at a time; whether an event is visible does not change over time.
- Comments: `segments_to_display_text`, `enrich_segments` and `legacy_mention_names`; lower-casing that changes a name's length.
- Alerts: the team digest, and links and message keys of the notifications.
- NotificationSummary: overlapping runs of the job; preferences and addresses are fixed for a run.
- SnapshotProtocol: the throttled warnings, and the process shutdown of the loop.
- backend/app/stackrox/effective_scores.py: the same loader protocol as the access snapshot, and array building.
- Suppression: rule counting, thresholds, remediation status and the list query itself.
- Remediations: audit log, notifications, and `compute_remediation_status`.
- RemediationRaces: creations and deletions load and commit at once.
- Scopes: the legacy scope shapes, the digest, and field length limits; deployment ids are assumed to locate one namespace within a list (`IdsLocate`) for the single-team result.
- AcceptanceRaces: creations and cancellations load and commit at once.
- Acceptances: justification texts and review times, comments, reviewer assignment, deletion of user accounts, notifications and emails.
- Escalations: the loop that lists upcoming levels, and the escalation job itself.
- HeaderInjector: the token cache's lifetimes, the refresh of the namespace cache, and the OpenShift API; a lookup result is a parameter.
- JWT and OIDC login, user synchronisation, SQL, HTTP, SMTP, PDF and Excel rendering, metrics, presence, badges, the frontend and the data generators.
- Floating-point rounding of scores, and Unicode case and white space.
