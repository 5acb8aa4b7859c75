/** Daily summaries built on this Mac: the longest confident run, the dominant category, recoveries. */
module DailySummary {
  import opened Prelude
  import opened Sorting
  import opened Timeline
  import Clusters
  import DayActivity

  const DWELL_SEAM_SECONDS: nat := 1
  const SESSION_GAP_SECONDS: nat := 1800
  const LOCAL_READY_MIN_ACTIVE_SECONDS: nat := 60

  /** The drift gate's bar, asked of a stretch. */
  predicate IsConfident(segment: Segment) {
    var lower := Lower(segment.category);
    && (segment.confidence == High || segment.confidence == Medium)
    && lower != "system" && lower != "unclassified" && lower != "unlogged"
  }

  // ----- The longest confident run ------------------------------------------

  predicate Continues(previous: Segment, segment: Segment) {
    && previous.category == segment.category
    && segment.startedAt - previous.endedAt <= DWELL_SEAM_SECONDS
  }

  /** The seconds of the run that ends with the `n`-th segment. */
  function RunEnding(segments: seq<Segment>, n: nat): nat
    requires n <= |segments|
  {
    if n == 0 || !IsConfident(segments[n - 1]) then 0
    else if n > 1 && IsConfident(segments[n - 2]) && Continues(segments[n - 2], segments[n - 1])
    then RunEnding(segments, n - 1) + segments[n - 1].Seconds()
    else segments[n - 1].Seconds()
  }

  function Longest(segments: seq<Segment>, n: nat): nat
    requires n <= |segments|
  {
    if n == 0 then 0 else Max(Longest(segments, n - 1), RunEnding(segments, n))
  }

  method LongestConfidentRunSeconds(segments: seq<Segment>) returns (longest: nat)
    ensures longest == Longest(segments, |segments|)
  {
    longest := 0;
    var run: nat := 0;
    var previous: Option<Segment> := None;
    for i := 0 to |segments|
      invariant longest == Longest(segments, i)
      invariant previous == if i > 0 && IsConfident(segments[i - 1]) then Some(segments[i - 1]) else None
      invariant previous.Some? ==> run == RunEnding(segments, i)
    {
      var segment := segments[i];
      if !IsConfident(segment) {
        previous := None;
        continue;
      }
      var continues := previous.Some? && Continues(previous.value, segment);
      run := (if continues then run else 0) + segment.Seconds();
      longest := Max(longest, run);
      previous := Some(segment);
    }
  }

  /** `segments[a..b]` is one run: confident throughout, one category, no gap past the seam. */
  predicate IsRun(segments: seq<Segment>, a: int, b: int) {
    && 0 <= a < b <= |segments|
    && IsConfident(segments[b - 1])
    && (a < b - 1 ==> IsRun(segments, a, b - 1) && Continues(segments[b - 2], segments[b - 1]))
  }

  function RunSeconds(segments: seq<Segment>, a: int, b: int): nat
    requires 0 <= a <= b <= |segments|
    decreases b
  {
    if a == b then 0 else RunSeconds(segments, a, b - 1) + segments[b - 1].Seconds()
  }

  lemma {:induction false} RunEndingIsLargest(segments: seq<Segment>, a: int, b: nat)
    requires IsRun(segments, a, b)
    ensures RunSeconds(segments, a, b) <= RunEnding(segments, b)
  {
    if a < b - 1 {
      RunEndingIsLargest(segments, a, b - 1);
    }
  }

  lemma {:induction false} RunEndingIsARun(segments: seq<Segment>, b: nat) returns (a: nat)
    requires 0 < b <= |segments| && IsConfident(segments[b - 1])
    ensures IsRun(segments, a, b) && RunSeconds(segments, a, b) == RunEnding(segments, b)
  {
    if b > 1 && IsConfident(segments[b - 2]) && Continues(segments[b - 2], segments[b - 1]) {
      a := RunEndingIsARun(segments, b - 1);
    } else {
      a := b - 1;
    }
  }

  lemma {:induction false} LongestBoundsRuns(segments: seq<Segment>, n: nat, a: int, b: nat)
    requires n <= |segments| && b <= n && IsRun(segments, a, b)
    ensures RunSeconds(segments, a, b) <= Longest(segments, n)
  {
    if b == n {
      RunEndingIsLargest(segments, a, b);
    } else {
      LongestBoundsRuns(segments, n - 1, a, b);
    }
  }

  lemma {:induction false} LongestIsARun(segments: seq<Segment>, n: nat)
    requires n <= |segments| && Longest(segments, n) > 0
    ensures exists a, b :: b <= n && IsRun(segments, a, b) && RunSeconds(segments, a, b) == Longest(segments, n)
  {
    if Longest(segments, n) == RunEnding(segments, n) {
      var a := RunEndingIsARun(segments, n);
      assert IsRun(segments, a, n);
    } else {
      LongestIsARun(segments, n - 1);
    }
  }

  lemma ConfidentIsActive(category: string)
    requires Lower(category) != "system"
    ensures DayActivity.NotSystem()(category)
  {
    assert Lower("SYSTEM") == "system";
  }

  lemma {:induction false} RunWithinActive(segments: seq<Segment>, a: int, b: nat)
    requires IsRun(segments, a, b)
    ensures RunSeconds(segments, a, b) <= SecondsWhere(segments[..b], DayActivity.NotSystem())
  {
    assert segments[..b][..b - 1] == segments[..b - 1];
    ConfidentIsActive(segments[b - 1].category);
    if a < b - 1 {
      RunWithinActive(segments, a, b - 1);
    }
  }

  lemma {:induction false} SecondsGrow(segments: seq<Segment>, b: nat, p: string -> bool)
    requires b <= |segments|
    ensures SecondsWhere(segments[..b], p) <= SecondsWhere(segments, p)
  {
    if b == |segments| {
      assert segments[..b] == segments;
    } else {
      SecondsGrow(segments[..|segments| - 1], b, p);
      assert segments[..|segments| - 1][..b] == segments[..b];
    }
  }

  /** No run is longer, and some run is that long if it is any length at all. */
  ghost predicate IsLongestRun(segments: seq<Segment>, seconds: nat) {
    && (forall a, b :: IsRun(segments, a, b) ==> RunSeconds(segments, a, b) <= seconds)
    && (seconds > 0 ==> exists a, b :: IsRun(segments, a, b) && RunSeconds(segments, a, b) == seconds)
  }

  /** Main result: the longest run is the maximum over all contiguous index ranges that are runs, it is
      one of them when positive, and it never exceeds the active seconds. */
  lemma {:induction false} LongestIsMaximum(segments: seq<Segment>)
    ensures IsLongestRun(segments, Longest(segments, |segments|))
    ensures Longest(segments, |segments|) <= DayActivity.ActiveSeconds(segments)
  {
    forall a, b | IsRun(segments, a, b) ensures RunSeconds(segments, a, b) <= Longest(segments, |segments|) {
      LongestBoundsRuns(segments, |segments|, a, b);
    }
    if Longest(segments, |segments|) > 0 {
      LongestIsARun(segments, |segments|);
      var a, b :| b <= |segments| && IsRun(segments, a, b)
               && RunSeconds(segments, a, b) == Longest(segments, |segments|);
      RunWithinActive(segments, a, b);
      SecondsGrow(segments, b, DayActivity.NotSystem());
    }
  }

  // ----- The dominant category ----------------------------------------------

  function IsCategory(category: string): string -> bool { (c: string) => c == category }

  function CategorySeconds(segments: seq<Segment>, category: string): nat {
    SecondsWhere(segments, IsCategory(category))
  }

  predicate Appears(segments: seq<Segment>, category: string) {
    exists i :: 0 <= i < |segments| && segments[i].category == category
  }

  /** More time, or the same time and an earlier name. */
  predicate Outranks(segments: seq<Segment>, c: string, d: string) {
    CategorySeconds(segments, c) > CategorySeconds(segments, d) ||
    (CategorySeconds(segments, c) == CategorySeconds(segments, d) && TextLe(c, d))
  }

  ghost predicate IsDominant(segments: seq<Segment>, category: string) {
    Appears(segments, category) &&
    forall c :: Appears(segments, c) ==> Outranks(segments, category, c)
  }

  lemma DominantIsUnique(segments: seq<Segment>, c: string, d: string)
    requires IsDominant(segments, c) && IsDominant(segments, d)
    ensures c == d
  {
    assert Outranks(segments, c, d) && Outranks(segments, d, c);
    TextLeTotal(c, d);
  }

  lemma OutranksTransitive(segments: seq<Segment>, b: string, c: string, d: string)
    requires Outranks(segments, b, c) && Outranks(segments, c, d)
    ensures Outranks(segments, b, d)
  {
    if TextLe(b, c) && TextLe(c, d) {
      TextLeTransitive(b, c, d);
    }
  }

  lemma AppearsSnoc(segments: seq<Segment>, i: nat, category: string)
    requires i < |segments|
    ensures Appears(segments[..i + 1], category) <==>
            Appears(segments[..i], category) || segments[i].category == category
    ensures CategorySeconds(segments[..i + 1], category) ==
            CategorySeconds(segments[..i], category)
            + if segments[i].category == category then segments[i].Seconds() else 0
  {
    assert segments[..i + 1][..i] == segments[..i];
    assert segments[..i + 1][i] == segments[i];
    if Appears(segments[..i], category) {
      var j :| 0 <= j < i && segments[..i][j].category == category;
      assert segments[..i + 1][j].category == category;
    }
    if Appears(segments[..i + 1], category) && segments[i].category != category {
      var j :| 0 <= j < i + 1 && segments[..i + 1][j].category == category;
      assert segments[..i][j].category == category;
    }
  }

  lemma {:induction false} NoneBefore(segments: seq<Segment>, category: string)
    requires !Appears(segments, category)
    ensures CategorySeconds(segments, category) == 0
  {
    if segments != [] {
      var init := segments[..|segments| - 1];
      assert segments[|segments| - 1].category != category;
      NoneBefore(init, category);
    }
  }

  method CategoryDurations(segments: seq<Segment>) returns (durations: map<string, nat>)
    ensures forall c :: c in durations <==> Appears(segments, c)
    ensures forall c :: c in durations ==> durations[c] == CategorySeconds(segments, c)
  {
    durations := map[];
    for i := 0 to |segments|
      invariant forall c :: c in durations <==> Appears(segments[..i], c)
      invariant forall c :: c in durations ==> durations[c] == CategorySeconds(segments[..i], c)
    {
      var category := segments[i].category;
      ghost var before := durations;
      var prior := if category in durations then durations[category] else 0;
      durations := durations[category := prior + segments[i].Seconds()];
      if category !in before {
        NoneBefore(segments[..i], category);
      }
      forall c
        ensures c in durations <==> Appears(segments[..i + 1], c)
        ensures c in durations ==> durations[c] == CategorySeconds(segments[..i + 1], c)
      {
        AppearsSnoc(segments, i, c);
      }
    }
    assert segments[..|segments|] == segments;
  }

  method DominantCategory(segments: seq<Segment>) returns (dominant: Option<string>)
    ensures dominant.None? <==> segments == []
    ensures dominant.Some? ==> IsDominant(segments, dominant.value)
  {
    var durations := CategoryDurations(segments);
    if segments == [] {
      return None;
    }
    assert Appears(segments, segments[0].category);
    var best := segments[0].category;
    var rest := durations.Keys;
    while rest != {}
      invariant rest <= durations.Keys
      invariant Appears(segments, best)
      invariant forall c :: c in durations.Keys - rest ==> Outranks(segments, best, c) || c == best
      decreases rest
    {
      var c :| c in rest;
      rest := rest - {c};
      if durations[c] > durations[best] || (durations[c] == durations[best] && TextLe(c, best)) {
        forall d | d in durations.Keys - rest ensures Outranks(segments, c, d) || d == c {
          if d != c && d != best {
            OutranksTransitive(segments, c, best, d);
          }
        }
        best := c;
      } else {
        TextLeTotal(c, best);
      }
    }
    TextLeTotal(best, best);
    dominant := Some(best);
  }

  // ----- Recoveries ---------------------------------------------------------

  /** How many maximal runs of `category` the first `n` segments hold. */
  function RunsOf(segments: seq<Segment>, category: string, n: nat): nat
    requires n <= |segments|
  {
    if n == 0 then 0
    else RunsOf(segments, category, n - 1) +
         (if segments[n - 1].category == category && (n == 1 || segments[n - 2].category != category) then 1 else 0)
  }

  function Recoveries(segments: seq<Segment>, category: string): nat {
    Max(0, RunsOf(segments, category, |segments|) - 1)
  }

  lemma {:induction false} RunsBegin(segments: seq<Segment>, category: string, n: nat)
    requires n <= |segments|
    ensures RunsOf(segments, category, n) == 0 ==> forall i :: 0 <= i < n ==> segments[i].category != category
    ensures n > 0 && segments[n - 1].category == category ==> RunsOf(segments, category, n) > 0
  {
    if n > 0 {
      RunsBegin(segments, category, n - 1);
    }
  }

  method CountRecoveries(meaningful: seq<Segment>, dominant: string) returns (recoveries: nat)
    ensures recoveries == Recoveries(meaningful, dominant)
  {
    var seen, away := false, false;
    recoveries := 0;
    for i := 0 to |meaningful|
      invariant seen <==> RunsOf(meaningful, dominant, i) > 0
      invariant away <==> seen && meaningful[i - 1].category != dominant
      invariant recoveries == Max(0, RunsOf(meaningful, dominant, i) - 1)
    {
      RunsBegin(meaningful, dominant, i);
      if meaningful[i].category == dominant {
        if seen && away {
          recoveries := recoveries + 1;
        }
        seen, away := true, false;
      } else if seen {
        away := true;
      }
    }
  }

  /** Zero when nothing meaningful was seen, else one fewer than the runs of the dominant category. */
  method RecoveryCount(segments: seq<Segment>) returns (recoveries: nat)
    ensures var meaningful := Clusters.Meaningful(segments);
      if meaningful == [] then recoveries == 0
      else exists d :: IsDominant(meaningful, d) && recoveries == Recoveries(meaningful, d)
  {
    var meaningful := Clusters.Meaningful(segments);
    var dominant := DominantCategory(meaningful);
    if dominant.None? {
      return 0;
    }
    recoveries := CountRecoveries(meaningful, dominant.value);
  }

  ghost predicate AllUpper(segments: seq<Segment>) {
    forall i :: 0 <= i < |segments| ==> Upper(segments[i].category) == segments[i].category
  }

  lemma {:induction false} SegmentsAreUpper(events: seq<Event>, windowStart: int, windowEnd: int, n: nat)
    requires n <= |events|
    ensures AllUpper(SegmentsAfter(events, windowStart, windowEnd, n))
  {
    if n > 0 {
      SegmentsAreUpper(events, windowStart, windowEnd, n - 1);
      UpperTwice(events[n - 1].category);
      assert Upper("UNCLASSIFIED") == "UNCLASSIFIED";
    }
  }

  /** Each return to a category costs a departure and a return. */
  lemma {:induction false} RunsCostChanges(segments: seq<Segment>, category: string, n: nat)
    requires n <= |segments| && AllUpper(segments)
    ensures var changes, runs := |Clusters.Changes(segments[..n])|, RunsOf(segments, category, n);
      && 2 * runs <= changes + 2
      && (runs > 0 && segments[n - 1].category != category ==> 2 * runs <= changes + 1)
  {
    if n > 1 {
      RunsCostChanges(segments, category, n - 1);
      assert segments[..n][..n - 1] == segments[..n - 1];
      EqIgnoreCaseIsEqualUpper(segments[n - 2].category, segments[n - 1].category);
      RunsBegin(segments, category, n - 1);
    }
  }

  /** Twice the recoveries never exceed the transitions, for whichever category is followed. */
  lemma RecoveriesWithinTransitions(
    events: seq<Event>, windowStart: int, windowEnd: int, category: string)
    ensures var segments := Segments(events, windowStart, windowEnd);
      2 * Recoveries(Clusters.Meaningful(segments), category) <= |Clusters.BuildTransitions(segments)|
  {
    var segments := Segments(events, windowStart, windowEnd);
    var meaningful := Clusters.Meaningful(segments);
    SegmentsAreUpper(SortByTime(events), windowStart, windowEnd, |events|);
    forall i | 0 <= i < |meaningful| ensures Upper(meaningful[i].category) == meaningful[i].category {
      FilterMembers(segments, (s: Segment) => Clusters.IsMeaningful(s.category), meaningful[i]);
    }
    RunsCostChanges(meaningful, category, |meaningful|);
    assert meaningful[..|meaningful|] == meaningful;
  }

  // ----- The summary --------------------------------------------------------

  function WorkLane(category: string): string {
    if category == "FOCUS_WORK" || category == "TASK_MANAGEMENT" then "focus_work"
    else if category == "REFERENCE" then "development_work"
    else if category == "COMMUNICATION" then "communication"
    else if category == "PASSIVE_CONSUMPTION" || category == "SOCIAL_FEED" then "consumption"
    else category
  }

  datatype Summary = NoDataSummary | ReadySummary(
    eventCount: nat,
    activeSeconds: nat,
    focusedSeconds: nat,
    meaningfulSwitchCount: nat,
    longestUninterruptedSeconds: nat)

  function MeasuredCount(events: seq<Event>, start: int, end: int, n: nat): nat
    requires n <= |events|
  {
    if n == 0 then 0
    else MeasuredCount(events, start, end, n - 1) + (if MeasuredSpan(events, n - 1, start, end).Some? then 1 else 0)
  }

  predicate IsFocusLane(category: string) {
    WorkLane(category) == "focus_work" || WorkLane(category) == "development_work"
  }

  function FocusLane(): string -> bool { (category: string) => IsFocusLane(category) }

  function FocusedSeconds(segments: seq<Segment>): nat {
    if segments == [] then 0
    else
      var last := segments[|segments| - 1];
      FocusedSeconds(segments[..|segments| - 1]) +
      (if IsConfident(last) && IsFocusLane(last.category) then last.Seconds() else 0)
  }

  /** Two neighbours in different lanes with no more than a session gap between them. */
  predicate IsLaneChange(left: Segment, right: Segment) {
    WorkLane(left.category) != WorkLane(right.category) && right.startedAt - left.endedAt <= SESSION_GAP_SECONDS
  }

  function LaneChanges(confident: seq<Segment>): nat {
    if |confident| < 2 then 0
    else
      var left, right := confident[|confident| - 2], confident[|confident| - 1];
      LaneChanges(confident[..|confident| - 1]) +
      (if IsLaneChange(left, right) then 1 else 0)
  }

  function ConfidentSegment(): Segment -> bool { (s: Segment) => IsConfident(s) }

  function Summarize(events: seq<Event>, start: int, end: int): Summary {
    var sorted, segments := SortByTime(events), Segments(events, start, end);
    var active := DayActivity.ActiveSeconds(segments);
    if active < LOCAL_READY_MIN_ACTIVE_SECONDS then NoDataSummary
    else ReadySummary(
      MeasuredCount(sorted, start, end, |sorted|),
      active,
      FocusedSeconds(segments),
      LaneChanges(Filter(segments, ConfidentSegment())),
      Longest(segments, |segments|))
  }

  lemma {:induction false} FocusedWithinActive(segments: seq<Segment>)
    ensures FocusedSeconds(segments) <= DayActivity.ActiveSeconds(segments)
  {
    if segments != [] {
      FocusedWithinActive(segments[..|segments| - 1]);
      if IsConfident(segments[|segments| - 1]) {
        ConfidentIsActive(segments[|segments| - 1].category);
      }
    }
  }

  lemma {:induction false} SegmentsWithinCount(events: seq<Event>, start: int, end: int, n: nat)
    requires n <= |events|
    ensures |SegmentsAfter(events, start, end, n)| <= MeasuredCount(events, start, end, n)
  {
    if n > 0 {
      SegmentsWithinCount(events, start, end, n - 1);
    }
  }

  lemma {:induction false} LaneChangesBelow(confident: seq<Segment>)
    ensures confident != [] ==> LaneChanges(confident) < |confident|
  {
    if |confident| >= 2 {
      LaneChangesBelow(confident[..|confident| - 1]);
    }
  }

  // ----- What the summary counts --------------------------------------------

  /** Whether the event at an index has measured time. */
  function HasTime(events: seq<Event>, start: int, end: int): int -> bool {
    i => 0 <= i && MeasuredSpan(events, i, start, end).Some?
  }

  lemma {:induction false} MeasuredCountCounts(events: seq<Event>, start: int, end: int, n: nat)
    requires n <= |events|
    ensures MeasuredCount(events, start, end, n) == Count(HasTime(events, start, end), 0, n)
  {
    if n > 0 {
      MeasuredCountCounts(events, start, end, n - 1);
    }
  }

  predicate ChangesLaneAt(confident: seq<Segment>, i: int) {
    0 < i < |confident| && IsLaneChange(confident[i - 1], confident[i])
  }

  /** Whether the lane changes at an index. */
  function ChangesLane(confident: seq<Segment>): int -> bool { i => ChangesLaneAt(confident, i) }

  lemma {:induction false} LaneChangesCounts(confident: seq<Segment>, n: nat)
    requires n <= |confident|
    ensures LaneChanges(confident[..n]) == Count(ChangesLane(confident), 0, n)
  {
    if n > 0 {
      LaneChangesCounts(confident, n - 1);
      assert confident[..n][..n - 1] == confident[..n - 1];
    }
  }

  lemma {:induction false} CoveringSegment(segments: seq<Segment>, lo: int, hi: int, k: nat, s: int)
    requires Tidy(segments, lo, hi) && k < |segments| && segments[k].Covers(s)
    ensures CategoryAt(segments, s) == Some(segments[k].category)
  {
    TidyInOrder(segments, lo, hi);
    var found := SegmentAt(segments, s);
    var j :| 0 <= j < |segments| && segments[j] == found.value;
    assert j == k;
  }

  /** A built segment of any category but UNCLASSIFIED is of medium confidence at least. */
  lemma ClassifiedIsConfident(events: seq<Event>, start: int, end: int, k: nat)
    requires k < |Segments(events, start, end)|
    ensures var segment := Segments(events, start, end)[k];
      segment.category != "UNCLASSIFIED" ==> segment.confidence == Medium || segment.confidence == High
  {
    var segments, sorted := Segments(events, start, end), SortByTime(events);
    var segment := segments[k];
    SegmentsDenoteEvents(events, start, end);
    SegmentsDenote(events, start, end);
    assert WeakestShown(sorted, segment);
    var s :| segment.Covers(s) && Exactly(sorted, s, segment.confidence);
    CoveringSegment(segments, start, end, k, s);
    assert ShownCategory(sorted, start, end, s) == Some(segment.category);
  }

  lemma FocusLaneIsConfident(segment: Segment)
    requires IsFocusLane(segment.category) && (segment.confidence == Medium || segment.confidence == High)
    ensures IsConfident(segment)
  {
  }

  lemma FocusLaneIsClassified()
    ensures !IsFocusLane("UNCLASSIFIED")
  {
  }

  lemma {:induction false} FocusedIsByCategory(segments: seq<Segment>)
    requires forall k :: 0 <= k < |segments| && IsFocusLane(segments[k].category) ==> IsConfident(segments[k])
    ensures FocusedSeconds(segments) == SecondsWhere(segments, FocusLane())
  {
    if segments != [] {
      FocusedIsByCategory(segments[..|segments| - 1]);
    }
  }

  /** Focused seconds are the seconds at which the event on screen is confidently of a focus category. */
  lemma {:induction false} FocusedIsShown(events: seq<Event>, start: int, end: int)
    ensures FocusedSeconds(Segments(events, start, end)) ==
            Count(WindowWhere(SortByTime(events), start, end, FocusLane()), start, end)
  {
    var segments := Segments(events, start, end);
    forall k | 0 <= k < |segments| && IsFocusLane(segments[k].category) ensures IsConfident(segments[k]) {
      ClassifiedIsConfident(events, start, end, k);
      FocusLaneIsClassified();
      FocusLaneIsConfident(segments[k]);
    }
    FocusedIsByCategory(segments);
    SegmentSecondsAreShown(events, start, end, FocusLane());
  }

  /** A ready summary, against the events: its active time is the chart's; its focus is the seconds at which a
      focus category is confidently on screen; its events are those with measured time; its switches are the
      lane changes between neighbouring confident segments; and none of it exceeds what the chart carries. */
  lemma {:induction false} SummaryIsExact(
    events: seq<Event>, start: int, end: int, isToday: bool, truncated: bool, friendly: string -> string)
    ensures var row := DayActivity.Row(events, start, end, isToday, truncated, friendly);
            var summary, sorted := Summarize(events, start, end), SortByTime(events);
            var confident := Filter(Segments(events, start, end), ConfidentSegment());
      if row.activeSeconds < LOCAL_READY_MIN_ACTIVE_SECONDS then summary == NoDataSummary
      else
        && summary.ReadySummary?
        && summary.activeSeconds == row.activeSeconds
        && summary.focusedSeconds == Count(WindowWhere(sorted, start, end, FocusLane()), start, end)
        && summary.focusedSeconds <= row.activeSeconds
        && summary.eventCount == Count(HasTime(sorted, start, end), 0, |sorted|)
        && summary.meaningfulSwitchCount == Count(ChangesLane(confident), 0, |confident|)
        && summary.meaningfulSwitchCount < summary.eventCount
        && IsLongestRun(Segments(events, start, end), summary.longestUninterruptedSeconds)
        && summary.longestUninterruptedSeconds <= row.activeSeconds
  {
    var segments, sorted := Segments(events, start, end), SortByTime(events);
    var confident := Filter(segments, ConfidentSegment());
    FocusedIsShown(events, start, end);
    FocusedWithinActive(segments);
    LongestIsMaximum(segments);
    LaneChangesBelow(confident);
    LaneChangesCounts(confident, |confident|);
    assert confident[..|confident|] == confident;
    MeasuredCountCounts(sorted, start, end, |sorted|);
    SegmentsWithinCount(sorted, start, end, |events|);
    assert DayActivity.ActiveSeconds(segments) >= LOCAL_READY_MIN_ACTIVE_SECONDS ==> segments != [];
  }
}
