# Velvt, verified

Velvt watches which application is in front, keeps an abstracted ledger of it on the Mac, and draws a local
timeline, a daily chart and a history from that ledger. A separate script analyses what a cohort of testers
exported. This project models the parts of that system in which a mistake would be silent, and proves what
each of them is for.

- **The timeline** (`Timeline`, `LocalDays`, `Clusters`, `Percentages`, `DayActivity` with `ChartRows`, `DailySummary` with
  `HistoryDays`). Dwell
  events become clipped spans, merged segments, transitions, switching clusters, chart buckets, whole
  percentages and daily summaries. The specification is second by second: `Shown` says which event, if any, is
  on screen at second `s`, and every aggregate is proved against it.
- **The outcome labels and the cohort's accounting** (`OutcomeLabels` with `LabelMeaning`, `Cohort` with
  `CohortMeaning`, `PrimaryOutcome`). A decision's
  labels are computed from an observation ledger, held to two checks, loaded export by export into one cohort, and
  counted into denominators.
- **The classifiers' text, patterns, sites and cache** (`TokenText`, `Glob`, `Sites`, `EmbeddingCache`). A padded
  substring test stands for token-list matching, a greedy walk for globs, a suffix walk for a longest match, and
  a two-level cache for inference.
- **The codecs** (`Centroids` with `Utf8`, `Keys`, both over `Bytes`). The prototype file's reader, and the framing
  and hex form of identity keys.

`Prelude` and `Sorting` hold the shared vocabulary: counting seconds, ASCII case folding, the order on strings, and
the stable sort both languages use. Loops, accumulators and mutable objects of the source are methods and classes
here, each proved equal to a function of its input; the theorems are about those functions. `ChartRows`, `HistoryDays`,
`LabelMeaning` and `CohortMeaning` say what those functions answer in terms of the input alone: what is on screen at a second,
what an observation says, what a cell holds.

Three properties one might expect of the code do not hold in general. Each is settled by its exact condition:

- A day's own read tells the day as the whole history does if and only if nothing that began more than 1800 s before
  local midnight is on screen at midnight (`LocalDays.DayMatchesIffCleanStart`). One event with no reported dwell, begun
  2000 s before midnight, is missed all day (`LocalDays.LongDwellIsMissed`).
- Chart percentages are floors or ceilings of exact shares if and only if the points handed out do not outnumber the
  buckets with a remainder (`Percentages.WithinCeilingIff`). That holds whenever the buckets fill the active time. They do
  not on a day of 50 s of confident work and 50 s of a SYSTEM event that was not confidently classified: its one bucket, half
  of the active time, is shown at 51 percent (`DayActivity.HalfSystemDayReads51`).
- The pattern walk is glob matching for patterns with no `*` or ending in one. For any other it accepts a glob match if and
  only if no proper prefix of the text matches too (`Glob.MatchesIffGlob`); `*ab` turns `abab` away, since `ab` already
  matches (`Glob.StarAbRejectsAbab`).

`work_block/mod.rs` and `scripts/analyze_cohort.py` both define what counts as confident evidence; the model uses each where the
source does, over ASCII case folding.

Check the project with `dafny verify dfyconfig.toml`.

## Model

| member | source | states |
|---|---|---|
| `Timeline.SpanIsShown` | rust-service/src/dashboard.rs:239-258 | A span covers exactly the window seconds at which its event is the latest to have begun and its reported dwell is not over |
| `Timeline.SpansDisjoint` | rust-service/src/dashboard.rs:239-258 | No second belongs to the spans of two events |
| `Timeline.LatestIsShown` | rust-service/src/dashboard.rs:239-258 | On a time-ordered list the latest event to have begun is on screen for exactly its reported seconds, or with none reported until the next event; a dwell past 63 bits counts as 1800 s |
| `Timeline.SortByTimeIsStable` | rust-service/src/dashboard.rs:204 | Sorting by time permutes the events and keeps the order of those at one second |
| `Timeline.WeakerConfidence` | rust-service/src/dashboard.rs:1303-1320 | The result has the smaller of the two ranks |
| `Timeline.BuildSegments` | rust-service/src/dashboard.rs:199-229 | The merging loop computes `Segments`, the function all timeline results are about |
| `Timeline.SegmentsDenoteEvents` | rust-service/src/dashboard.rs:199-258 | For every event list and window: a segment of category c covers a second iff the event on screen there has safe category c; the segments are non-empty, ordered, disjoint, inside the window and maximal; each carries the weakest confidence shown during it |
| `Timeline.SegmentsShowFields` | rust-service/src/dashboard.rs:199-258 | At a second of the window the segments show the latest event to have begun, for as long as its reported dwell: its category in upper case if it is classified with high or medium confidence, UNCLASSIFIED otherwise |
| `Timeline.SegmentConfidence` | rust-service/src/dashboard.rs:1294-1320 | A segment is high iff every event shown during it says high, high or medium iff every one says either, and of no confidence iff some event says none of high, medium and low |
| `Timeline.TidyIsCanonical` | rust-service/src/dashboard.rs:199-229 | A segment list of that shape is determined by what it shows: two that agree at every second have the same boundaries and categories |
| `Timeline.SegmentSecondsAreShown` | rust-service/src/dashboard.rs:579-584 | Adding up the segment lengths of a set of categories counts the seconds at which one of them is on screen |
| `LocalDays.EventsBetweenIsSlice` | rust-service/src/persistence/sqlite.rs:2408-2432 | The capped range read of a time-ordered store is one contiguous slice, cut off at its earliest `limit` events |
| `LocalDays.Today` | rust-service/src/dashboard.rs:516-528 | `now` lies between the midnight of its local day and the next |
| `LocalDays.DaysTell` | rust-service/src/dashboard.rs:529-553 | Every day returned holds the slice of the store that begins 1800 s before its midnight, at most 16384 events, and is a cut of the day read in full: the same at every second before its reported end, nothing after |
| `LocalDays.FoldLocalDays` | rust-service/src/dashboard.rs:516-556 | The loop yields the last `count` local days, oldest first, and none for a count that is not positive |
| `LocalDays.DaysAreConsecutive` | rust-service/src/dashboard.rs:516-556 | The days are consecutive, each from local midnight to the next or to now; the last one, and only it, is today, and holds now |
| `LocalDays.CutDayAgrees` | rust-service/src/dashboard.rs:529-553 | A read cut off at its cap ends at the last event read, or with the day if that is earlier; it agrees with the uncut day at every second before that end and claims nothing from there on, even when every event read precedes the day; a read not cut is the uncut day |
| `LocalDays.DayMatchesIffCleanStart` | rust-service/src/dashboard.rs:516-556 | A day's own read shows what the whole history shows at every second iff nothing begun before the look-back is on screen at local midnight |
| `LocalDays.LongDwellIsMissed` | rust-service/src/dashboard.rs:516-556 | A history of one event with no reported dwell, begun 2000 s before midnight: the history shows it at midnight and the day's own read shows nothing |
| `LocalDays.BoundedSpansStartClean` | rust-service/src/dashboard.rs:39 | If no event has been on screen for longer than 1800 s (until its dwell ends, the next event or now), every day so far meets that condition |
| `LocalDays.DayIsClippedHistory` | rust-service/src/dashboard.rs:516-556 | Such a day's segments are the whole-history timeline cut to the day: same boundaries, same categories |
| `LocalDays.DaysAddUp` | rust-service/src/dashboard.rs:516-556 | Over consecutive such days, seconds per set of categories add up to those of the one timeline over the whole stretch: nothing lost or counted twice at midnight |
| `LocalDays.BoundedHistoryAddsUp` | rust-service/src/dashboard.rs:516-556 | With no event on screen for longer than 1800 s and no read at its cap, every day returned is the one timeline over the whole stretch cut to that day, and the days' seconds add up to its seconds |
| `Clusters.TransitionsAreSwitches` | rust-service/src/dashboard.rs:260-277 | A transition is listed iff at its second the category it enters comes on screen, the last meaningful second before showed the category it leaves, the two differ, and its confidence is the weaker of the two segments on screen then |
| `Clusters.TransitionsAscend` | rust-service/src/dashboard.rs:260-277 | A window's transitions are in time order, no two at one second |
| `Clusters.GroupSwitchingClusters` | rust-service/src/dashboard.rs:279-352 | The nested loops compute the merged ranges; each cluster has its range's first and last times, number of transitions, categories and confidence |
| `Clusters.CategoriesAreTouched` | rust-service/src/dashboard.rs:305-317 | A cluster names each category its transitions leave or enter, once, and no other |
| `Clusters.CategoriesInOrder` | rust-service/src/dashboard.rs:305-317 | They stand in order of first appearance, the category left before the one entered |
| `Clusters.WeakestIsLeast` | rust-service/src/dashboard.rs:318-322 | A cluster's confidence is the weakest among its transitions |
| `Clusters.SwitchingRangesAreComponents` | rust-service/src/dashboard.rs:279-303 | A transition is in a cluster iff it lies in a window of at least 3 transitions spanning at most 300 s; clusters are ordered and disjoint, every such window lies in one, and neighbours inside one share a window |
| `Clusters.SameClusterIffJoined` | rust-service/src/dashboard.rs:279-303 | Two transitions share a cluster iff every step between them lies in a qualifying window |
| `Clusters.ClusterTimes` | rust-service/src/dashboard.rs:279-352 | For time-ordered transitions a cluster starts at its earliest and ends at its latest transition, holds exactly the transitions between those times and counts them, and ends before the next one starts |
| `Percentages.BucketPercentages` | rust-service/src/dashboard.rs:1237-1259 | Floors plus one point each in remainder order compute `Shares` |
| `Percentages.PercentagesTotal` | rust-service/src/dashboard.rs:1237-1259 | The sum is 100, or the floors plus one point a bucket if that is less |
| `Percentages.PercentagesAreFair` | rust-service/src/dashboard.rs:1237-1259 | When the buckets fill the total, the percentages sum to exactly 100 and each is the floor or ceiling of its exact share |
| `Percentages.PercentagesKeepOrder` | rust-service/src/dashboard.rs:1237-1259 | A strictly larger bucket never gets a smaller percentage, whatever the total |
| `Percentages.PointsByRemainder` | rust-service/src/dashboard.rs:1237-1259 | Points go to larger remainders first and between equal ones to the earlier bucket |
| `Percentages.WithinCeilingIff` | rust-service/src/dashboard.rs:1237-1259 | For any total, every percentage is within its ceiling iff the points handed out do not outnumber the buckets with a remainder |
| `DayActivity.EventSecondsAreShown` | rust-service/src/dashboard.rs:606-647 | The measured seconds of a set of events are the seconds at which one of them is on screen |
| `DayActivity.FillBuckets` | rust-service/src/dashboard.rs:606-647 | The loop over events computes the bucket table |
| `DayActivity.BucketsAreExact` | rust-service/src/dashboard.rs:606-647 | No two buckets share an identity and category, each holds exactly the measured seconds of the counted events with its key, and every such event has a bucket |
| `ChartRows.BucketsAreDescribed` | rust-service/src/dashboard.rs:606-647 | Every bucket shows the identity, name, category and origin of the first event that contributes to it, and the weakest confidence of those that do |
| `DayActivity.FoldSmall` | rust-service/src/dashboard.rs:655-679 | The loop keeps the named buckets and folds the rest into `Other` |
| `DayActivity.SelectIsPrefix` | rust-service/src/dashboard.rs:648-679 | On buckets in descending order, the named ones are a prefix that stops at the twelfth or at the first tiny bucket |
| `DayActivity.AggregateDay` | rust-service/src/dashboard.rs:570-749 | The day's row: state, active seconds, coverage, buckets and percentages |
| `ChartRows.RowCoverage` | rust-service/src/dashboard.rs:579-604 | Active seconds are those at which something but SYSTEM is on screen. Coverage is good iff there are some, the read was not cut, and at least three quarters of them show a meaningful category; each of the four states has its condition (732-740), a minute of active time being required of today |
| `DayActivity.RowShape` | rust-service/src/dashboard.rs:648-679 | The named buckets are a prefix of the largest-first order, ties by label; each has at least 30 s and one percent, there are at most 12, and they stop short of 12 only at one that has not; the rest is one `Other`; at most 13 entries |
| `DayActivity.RowConserves` | rust-service/src/dashboard.rs:579-679 | Rendered seconds equal active seconds minus those of SYSTEM events that were not confidently classified |
| `DayActivity.RowPercentages` | rust-service/src/dashboard.rs:687 | When no SYSTEM event that was not confidently classified is on screen during it, an active day's percentages sum to 100, each the floor or ceiling of its share |
| `DayActivity.HalfSystemDayReads51` | rust-service/src/dashboard.rs:570-749 | Fifty seconds of confident work and fifty of a low-confidence SYSTEM event: active time is 100 s and the one bucket, of 50 s, is shown at 51 percent |
| `DailySummary.LongestConfidentRunSeconds` | rust-service/src/dashboard.rs:940-958 | The loop computes `Longest` |
| `DailySummary.LongestIsMaximum` | rust-service/src/dashboard.rs:940-958 | It is the maximum over all contiguous index ranges of one confident category with seams of at most 1 s, is attained, and never exceeds active seconds |
| `HistoryDays.RunIsStretch` | rust-service/src/dashboard.rs:940-958 | A run is a range of confident segments of one category with no gap of more than a second between neighbours |
| `DailySummary.CategoryDurations` | rust-service/src/dashboard.rs:1165-1170 | The map holds exactly the categories present, each with its seconds |
| `DailySummary.DominantCategory` | rust-service/src/dashboard.rs:1165-1174 | Present iff there is a segment; it has the most seconds, ties going to the earlier name |
| `DailySummary.DominantIsUnique` | rust-service/src/dashboard.rs:1165-1174 | No two categories can both be dominant, so the map's iteration order does not matter |
| `DailySummary.RecoveryCount` | rust-service/src/dashboard.rs:1176-1199 | Zero without a meaningful segment, else the number of maximal runs of the dominant category minus one |
| `DailySummary.RecoveriesWithinTransitions` | rust-service/src/dashboard.rs:1176-1199 | Twice the recoveries never exceed the transitions of the same window |
| `DailySummary.SummaryIsExact` | rust-service/src/dashboard.rs:872-928 | Below the minimum there is no summary; else active seconds are the chart's, focused seconds are those at which the event on screen is confidently of a focus category, events are those with measured time, switches are the lane changes between neighbouring confident segments, the longest stretch is the maximum over confident runs, and focus, longest stretch and switches stay within what the chart carries |
| `HistoryDays.SummarySays` | rust-service/src/dashboard.rs:872-928 | With under 60 active seconds there is no summary; else focused seconds are those at which FOCUS_WORK, TASK_MANAGEMENT or REFERENCE is confidently on screen, and switches are the changes of work between neighbouring segments of evidence at most 1800 s apart |
| `HistoryDays.LaneChangeMeans` | rust-service/src/dashboard.rs:1006-1014 | Two segments are a switch iff their categories differ, are not both focus work or both consumption, and the gap is at most 1800 s |
| `OutcomeLabels.CountDepartures` | scripts/analyze_cohort.py:598-613 | The scan counts exactly the rows that leave the anchor within 600 s after the decision |
| `OutcomeLabels.ScanForRun` | scripts/analyze_cohort.py:615-624 | The scan finds the first index of 300 consecutive anchored seconds, or nothing when there is none |
| `OutcomeLabels.LabelDecision` | scripts/analyze_cohort.py:508-625 | The script's computation gives `Label`, the definition in terms of seconds covered, anchored seconds, departures and runs |
| `LabelMeaning.ReasonMeans` | scripts/analyze_cohort.py:569-577 | Censored for a block that ended inside the 900 s, else for an open block whose export or an open observation ends inside them, else for a second of them not observed; uncensored otherwise |
| `LabelMeaning.CauseMeans` | scripts/analyze_cohort.py:576-593 | A gap is an ended block's final stretch when every unobserved second comes after the last observation began, else a pause that no restart explains, else other |
| `LabelMeaning.MeasuresMean` | scripts/analyze_cohort.py:597-613 | An uncensored decision is sustained iff at least 600 of its 900 seconds are at the anchor, and departure-free iff no evidence of another category begins in the 600 s after it with the anchor as the last evidence before |
| `LabelMeaning.DepartureMeans` | scripts/analyze_cohort.py:545-551 | The departure category is that of the latest evidence begun by the decision, absent if it is the anchor's, unrecognized if it is none of the service's eight |
| `OutcomeLabels.ReturnIsLeastRun` | scripts/analyze_cohort.py:615-625 | The time to sustained return is the least start of 300 consecutive anchored seconds, so 0 to 600, and is absent from an uncensored decision iff there is no such run |
| `LabelMeaning.ReturnMeans` | scripts/analyze_cohort.py:615-625 | The time to sustained return is k iff k is at most 600, the observations hold the anchor for 300 s from it, and from no earlier second |
| `OutcomeLabels.UncensoredLabelsAreFinal` | scripts/analyze_cohort.py:508-625 | Once a decision is uncensored with no row open inside its horizon, whether or not its block has ended, rows begun at or after the horizon end, open rows closed, a block end past the horizon and a later export leave every label as it is |
| `OutcomeLabels.OpenBlockLabelsAreFinal` | scripts/analyze_cohort.py:508-625 | In a still-open block, being uncensored is enough for that |
| `OutcomeLabels.MeasuresStay` | scripts/analyze_cohort.py:569-625 | Departure category, coverage, departures, anchored seconds and first run depend only on rows that begin before the horizon end |
| `OutcomeLabels.LabelsPassBothChecks` | scripts/analyze_cohort.py:837-881 | Every labelled decision, written out as a row, passes both checks against its own facts, whether or not the export time is known |
| `LabelMeaning.PassesIffSays` | scripts/analyze_cohort.py:837-863 | The first check passes a row iff its cells say labels that a decision can have |
| `LabelMeaning.AgreesIff` | scripts/analyze_cohort.py:866-881 | The second check passes a row iff its reason and cause fit the decision's block end and the export time |
| `Cohort.LoadOutcomes` | scripts/analyze_cohort.py:887-902 | The table keeps exactly the decision ids named by one row that is valid; every other named id is unusable |
| `Cohort.TableIgnoresOrder` | scripts/analyze_cohort.py:887-902 | The same rows in any order make the same table |
| `Cohort.Attribute` | scripts/analyze_cohort.py:920-922 | A block's versions are exactly those of its attributing decision rows so far |
| `Cohort.CohortData.AddDecision` | scripts/analyze_cohort.py:909-965 | A decision row joins the list of its own bucket and no other, and the counter of its policy |
| `Cohort.CohortData.LoadDecisions` | scripts/analyze_cohort.py:905-965 | Each list and the policy counter grow by exactly their own rows, in order, and the attribution map is exact |
| `Cohort.CohortData.LoadOffers` | scripts/analyze_cohort.py:983-1063 | Each offer list and the attribution counter grow by exactly their own rows, in order |
| `Cohort.CohortData.LoadParticipant` | scripts/analyze_cohort.py:884-1063 | The whole new cohort is the old one with what the export's rows hold added, stated without the outcome table or the attribution map: a point is measured iff one outcome row names it and passes both checks |
| `CohortMeaning.DecisionIsPlaced` | scripts/analyze_cohort.py:909-965 | From its own cells: a decision row is malformed, under another policy or analysed; an offered one under policy 5 is excluded iff its block is known to have run under 180 s less pauses, and eligible otherwise |
| `CohortMeaning.PointSays` | scripts/analyze_cohort.py:942-965 | A point is measured by an outcome row iff it is the only one that names the decision and passes both checks; else it says why |
| `CohortMeaning.OfferIsPlaced` | scripts/analyze_cohort.py:983-1063 | An offer row is kept iff its outcome is known, some decision wrote an offer for its block and all that did were under policy 5, and the block is not known to have run under 180 s |
| `CohortMeaning.KeptOffersAreRows` | scripts/analyze_cohort.py:1041-1063 | Every offer kept is the record of such a row, withheld by its outcome |
| `CohortMeaning.OfferSays` | scripts/analyze_cohort.py:1023-1058 | An offer was returned to iff it was not withheld and the exporter's cell says so, or with no cell its outcome and times do, within 600 s; its card was unseen only if the cell says so |
| `PrimaryOutcome.Load` | scripts/analyze_cohort.py:832-834 | Every export in turn into one cohort: it holds exactly what their rows hold; every decision row is malformed, under another policy or analysed, and every offer row malformed, excluded, withheld or delivered, once each; every eligible point is whole; every kept offer is under policy 5 alone |
| `PrimaryOutcome.CohortAddsUp` | scripts/analyze_cohort.py:832-834 | Lists and counters of the loaded cohort account for the rows loaded: the policy counter holds the analysed rows under 5, and offered rows under it are excluded or eligible |
| `PrimaryOutcome.CohortIsSound` | scripts/analyze_cohort.py:942-1063 | Over all exports, an eligible point has an outcome that passed both checks or a reason it has none; a kept offer's block is attributed by its own export to policy 5 and no other; withheld offers are never returned to |
| `PrimaryOutcome.CountVisible` | scripts/analyze_cohort.py:1240-1257 | The loop counts each eligible point once, as visibly censored for one reason or not visibly |
| `PrimaryOutcome.VisibleMeans` | scripts/analyze_cohort.py:1240-1257 | A point is visibly censored because its block ended inside the 900 s, or is open with an export time unknown or inside them |
| `PrimaryOutcome.CountPrimary` | scripts/analyze_cohort.py:1237-1268 | The loop and the counters compute the sums of what each point adds to every account |
| `PrimaryOutcome.NumeratorsMean` | scripts/analyze_cohort.py:1312-1326 | A labelled decision counts toward a numerator iff its label is yes |
| `PrimaryOutcome.PrimaryBalances` | scripts/analyze_cohort.py:1237-1268 | Eligible points are the unmeasured, the censored by reason and the uncensored, each once; observer gaps are their causes; what the decisions file shows of censoring is a floor on what the outcome rows report, up to the unmeasured points |
| `PrimaryOutcome.Analyse` | scripts/analyze_cohort.py:832-834 | Whatever the exports hold, the denominators of the cohort they load balance |
| `PrimaryOutcome.LabelledCohortIsMeasured` | scripts/analyze_cohort.py:942-965 | When every export labels its eligible decisions once, no eligible point of the cohort is unmeasured |
| `TokenText.NormalizeKeepsTokens` | rust-service/src/abstraction/normalize.rs:6-22 | Normalizing keeps the token list, is idempotent, and two texts normalize alike iff their token lists agree |
| `TokenText.InputTokensConcatenate` | rust-service/src/abstraction/normalize.rs:24-26 | A name and a title normalize to the tokens of one followed by the tokens of the other |
| `TokenText.PhraseIsSublist` | rust-service/src/abstraction/normalize.rs:28-36 | On a normalized haystack a phrase is found iff its token list is non-empty and a contiguous sublist of the haystack's |
| `Glob.PatternMatches` | rust-service/src/abstraction/plugin.rs:323-349 | Joining the normalized literals, splitting again and walking greedily computes `Matches` |
| `Glob.MatchesIffGlob` | rust-service/src/abstraction/plugin.rs:323-349 | For patterns with no `*` or ending in one the walk is glob matching; for any other it accepts exactly the glob matches no proper prefix of which matches too |
| `Glob.StarAbRejectsAbab` | rust-service/src/abstraction/plugin.rs:323-349 | `*ab` turns away `abab`, which it matches as a glob |
| `EmbeddingCache.InputIdentifiesWindow` | rust-service/src/abstraction/plugin.rs:1867-1880 | Two windows embed the same string iff their names and their titles normalize alike |
| `EmbeddingCache.EmbeddingSimilarityPlugin.ObserveInput` | rust-service/src/abstraction/plugin.rs:1671-1705 | The new cache state after an observation, with failed inference, unreadable or refused store and poisoned locks |
| `EmbeddingCache.EmbeddingSimilarityPlugin.Classify` | rust-service/src/abstraction/plugin.rs:1747-1755 | The new cache state; and, in a state consistent for the inputs in play, the verdict of direct inference |
| `EmbeddingCache.RunConsistent` | rust-service/src/abstraction/plugin.rs:1671-1755 | Over every serialized run on inputs that do not collide, both maps stay within 64 entries and every observed entry and every recorded row still present holds the embedding of the input it names |
| `EmbeddingCache.CacheAgreesIffHashFaithful` | rust-service/src/abstraction/plugin.rs:1671-1755 | For any set of inputs, from a fresh process and whatever rows an earlier one left, cached and direct classification agree over every run on them iff those of them that hash alike embed alike |
| `EmbeddingCache.ObservationIsKept` | rust-service/src/abstraction/plugin.rs:1671-1705 | A stored observation is in memory by its input, in the store by its key, and on record as that input's |
| `EmbeddingCache.ClassifyUsesObservation` | rust-service/src/abstraction/plugin.rs:1747-1755 | Classifying right after an observation needs no inference, and takes the entry out |
| `EmbeddingCache.RowIsReadForItsInput` | rust-service/src/abstraction/plugin.rs:1671-1682 | A row is read back with no inference for the input it was recorded from, and for no other |
| `Sites.IdentityIsFixedUnlessWww` | rust-service/src/abstraction/sites.rs:33-57 | An identity is a storable site, and its own identity iff it does not begin with a further `www.` |
| `Sites.SiteMeans` | rust-service/src/abstraction/sites.rs:33-57 | A site has at most 253 characters of `[a-z0-9.-]`, two labels or more, none empty, the last not a number, and is no private network name or under one |
| `Sites.IdentityMeans` | rust-service/src/abstraction/sites.rs:33-57 | A host's identity is its lower-case form less one `www.` in front, if that is a site |
| `Sites.NewMatcher` | rust-service/src/abstraction/sites.rs:107-116 | The map answers each seeded host with the first seed listed for it |
| `Sites.FirstSeedIsFirst` | rust-service/src/abstraction/sites.rs:107-116 | Of several seeds for a host the first listed is the one found |
| `Sites.Lookup` | rust-service/src/abstraction/sites.rs:126-136 | The suffix loop terminates and computes `LookupFrom` |
| `Sites.LookupIsLongestReaching` | rust-service/src/abstraction/sites.rs:107-136 | The walk returns exactly the longest-host seed among all that reach the site, passing over host-only suffixes, and nothing when none reaches |
| `Sites.TiersNeverBothAnswer` | rust-service/src/abstraction/sites.rs:181-294 | With one table the seed tier answers exactly for browser tabs whose site a seed reaches, and the inference tier never for those |
| `Sites.TiersAnswer` | rust-service/src/abstraction/sites.rs:181-294 | The seed tier answers a browser tab with the longest seed that reaches its site; the inference tier with what is inferred of the site, whenever no seed reaches it |
| `Utf8.DecodeIffEncoding` | rust-service/src/abstraction/centroids.rs:135-138 | A byte string decodes to a text iff it is that text's UTF-8 encoding |
| `Centroids.ParseIffEncoding` | rust-service/src/abstraction/centroids.rs:20-76 | The reader yields an artifact iff it is well formed and the bytes are its encoding in the published layout |
| `Centroids.EncodingIsInjective` | README.md:444-462 | No two well-formed artifacts share a file |
| `Centroids.FileLayout` | README.md:449-462 | The file part by part: magic, taxonomy version by length and UTF-8, in a new file the artifact version likewise, dimensions, count, records |
| `Centroids.RecordLayout` | README.md:458-461 | A record is its category by length and UTF-8, then its floats in order |
| `Centroids.FiniteMeans` | rust-service/src/abstraction/centroids.rs:57-59 | A float is finite iff its exponent bits are not all set |
| `Centroids.LegacyHasOneVector` | rust-service/src/abstraction/centroids.rs:60-67 | With no category repeated, grouping gives each category the one vector of its record |
| `Centroids.VectorsInFileOrder` | rust-service/src/abstraction/centroids.rs:46-68 | A category's vectors are those of its records, in file order |
| `Centroids.Cursor.Take` | rust-service/src/abstraction/centroids.rs:116-125 | The bytes asked for, or nothing and no movement; never past the end |
| `Centroids.Cursor.U32` | rust-service/src/abstraction/centroids.rs:127-133 | Four bytes read as a little-endian number; never past the end |
| `Centroids.Cursor.String` | rust-service/src/abstraction/centroids.rs:135-138 | A length and that many bytes of UTF-8; never past the end |
| `Centroids.FromBytes` | rust-service/src/abstraction/centroids.rs:20-76 | Succeeds iff the bytes are the file of a well-formed artifact, and returns that artifact's versions and its vectors grouped by category in file order |
| `Keys.FramingIsInjective` | rust-service/src/abstraction/key.rs:209-242 | The bytes hashed for window, app, bundle and site identities are equal iff the identities are: injective in every field, never equal across the four domains |
| `Keys.FramingLayout` | rust-service/src/abstraction/key.rs:209-242 | The hashed bytes are the domain, then each field as an eight-byte length and its bytes, a window's name before its title |
| `Keys.EncodeHex` | rust-service/src/abstraction/key.rs:290-298 | The loop computes the lower-case hex form |
| `Keys.HexDigits` | rust-service/src/abstraction/key.rs:290-298 | A byte is two digits, the high one first, 0-9 then a-f |
| `Keys.DecodeDigest` | rust-service/src/abstraction/key.rs:267-283 | Succeeds iff the text is 64 lower-case hex characters, and gives 32 bytes whose hex form it is |
| `Keys.HexRoundTrip` | rust-service/src/abstraction/key.rs:267-298 | A 32-byte digest's hex form is such a text, and no two byte strings share a hex form |
| `Keys.Digest` | rust-service/src/abstraction/key.rs:209-242 | Feeding the hasher piece by piece hashes the framed identity |
| `Keys.Hasher.UpdateLengthPrefixed` | rust-service/src/abstraction/key.rs:285-288 | An eight-byte big-endian length, then the value |
| `Keys.RekeyStoredDigest` | rust-service/src/abstraction/key.rs:86-99 | Answers iff the stored text is a digest's, with the key of the one digest it is the hex form of |
| `Keys.RekeyIdentity` | rust-service/src/abstraction/key.rs:86-99 | Re-keying what an identity's digest was stored as gives the key computed from its raw inputs |
| `Keys.KeyLayout` | rust-service/src/abstraction/key.rs:86-88 | A key is the hex of the HMAC over the salting domain and the digest |
| `Keys.KeysNameIdentities` | rust-service/src/abstraction/key.rs:86-99 | Two identities whose hashed strings do not collide share a key iff they are the same |

## Left out

- Time below a second, chrono's range, and saturation of `u64` and `u32` counters: times and durations are unbounded integers.
- The order SQLite gives rows of one second, and every other query: the store is a sequence in read order, read by `events_between` alone.
- The 60-minute window reads, which have no handling of a full read, and what is drawn from them: the early signal, the comparison with earlier, window labels.
- Clusters.GroupSwitchingClusters: does not model a cluster's id, rule version and explanation, which are display text.
- DayActivity.AggregateDay: does not model the ids and explanations of rendered segments, which are display text.
- DayActivity.FillBuckets: keeps the buckets as a list in order of first use where the source has a `BTreeMap`; the map's key order only decides ties, and is part of `DayActivity.Before`.
- All other display copy; the friendly form of a category is a parameter.
- OutcomeLabels.LabelDecision: folds case in ASCII, where the script's `upper` and `lower` are Unicode.
- Cohort.CohortData.AddDecision: does not model the message recorded for a malformed row, which is text.
- Cohort.CohortData.LoadDecisions: does not model the times kept for the policy-era filter, which only other files use.
- Cohort.CohortData.LoadOffers: does not model the reason text recorded with an exclusion.
- Cohort.CohortData.LoadParticipant: does not model messages, the list of exports without offers, and the policy-era lists, which feed no result here.
- Which exports are loaded at all (founder devices, reinstalls, unreadable files), and the block, invitation, explanation and correction files.
- CSV parsing: a cell's number is carried beside its text.
- What is computed from the denominators: censoring verdicts, rates, the time-to-return estimate and the rendered report.
- EmbeddingCache.EmbeddingSimilarityPlugin.Classify: takes ranking, thresholds and personal prototypes as the `decide` parameter; inference, its worker thread and timeouts are an optional result.
- EmbeddingCache.RunConsistent: speaks of serialized calls, not of the interleavings that releasing the locks between steps allows.
- The votes of `inferred_site_category` and `split_site` (the `infer` parameter), browser rules that refine a seed's label, and the seed tables as data.
- Centroids.FromBytes: does not model failure to allocate room for a declared dimension, nor reading the file from disk.
- Keys.KeysNameIdentities: SHA-256 and HMAC are parameters; that the strings in play do not collide is a hypothesis.
- The drift gate, work blocks, sign-in, upload, the push queue, inter-process messages, the Swift application and the build scripts.
