/** What a day of the local history says, in terms of what was on screen. */
module HistoryDays {
  import opened Prelude
  import opened Sorting
  import opened Timeline
  import opened DailySummary
  import DayActivity
  import ChartRows

  // ----- Categories and lanes -----------------------------------------------

  /** The seconds at which one of these categories is on screen. */
  function ShowsOneOf(events: seq<Event>, start: int, end: int, categories: seq<string>): int -> bool {
    s => var c := ShownCategory(events, start, end, s); c.Some? && c.value in categories
  }

  lemma UpperIsNotLower(category: string, lower: string)
    requires Upper(category) == category && lower != "" && 'a' <= lower[0] <= 'z'
    ensures category != lower
  {
    if category != "" {
      assert Upper(category)[0] == UpperChar(category[0]);
    }
  }

  /** The lane of a category is one of four named lanes, or the category itself. */
  lemma LaneOf(category: string)
    requires Upper(category) == category
    ensures WorkLane(category) == "focus_work" <==> category in ["FOCUS_WORK", "TASK_MANAGEMENT"]
    ensures WorkLane(category) == "development_work" <==> category in ["REFERENCE"]
    ensures WorkLane(category) == "communication" <==> category in ["COMMUNICATION"]
    ensures WorkLane(category) == "consumption" <==> category in ["PASSIVE_CONSUMPTION", "SOCIAL_FEED"]
    ensures WorkLane(category) != category ==>
              category in ["FOCUS_WORK", "TASK_MANAGEMENT", "REFERENCE", "COMMUNICATION",
                           "PASSIVE_CONSUMPTION", "SOCIAL_FEED"]
  {
    UpperIsNotLower(category, "focus_work");
    UpperIsNotLower(category, "development_work");
    UpperIsNotLower(category, "communication");
    UpperIsNotLower(category, "consumption");
  }

  /** Two categories are of one kind of work: the same, both focus work, or both consumption. */
  predicate SameWork(a: string, b: string) {
    || a == b
    || (a in ["FOCUS_WORK", "TASK_MANAGEMENT"] && b in ["FOCUS_WORK", "TASK_MANAGEMENT"])
    || (a in ["PASSIVE_CONSUMPTION", "SOCIAL_FEED"] && b in ["PASSIVE_CONSUMPTION", "SOCIAL_FEED"])
  }

  lemma LaneChangeMeans(left: Segment, right: Segment)
    requires Upper(left.category) == left.category && Upper(right.category) == right.category
    ensures IsLaneChange(left, right) <==>
            !SameWork(left.category, right.category) && right.startedAt - left.endedAt <= 1800
  {
    LaneOf(left.category);
    LaneOf(right.category);
  }

  lemma SegmentIsUpper(events: seq<Event>, start: int, end: int, k: nat)
    requires k < |Segments(events, start, end)|
    ensures var c := Segments(events, start, end)[k].category; Upper(c) == c
  {
    SegmentsAreUpper(SortByTime(events), start, end, |events|);
  }

  // ----- Confident segments -------------------------------------------------

  /** Of a category that is evidence of something. */
  function IsEvidence(): Segment -> bool {
    (s: Segment) => s.category !in ["SYSTEM", "UNCLASSIFIED", "UNLOGGED"]
  }

  lemma LowerLiterals()
    ensures Lower("SYSTEM") == "system" && Lower("UNCLASSIFIED") == "unclassified" && Lower("UNLOGGED") == "unlogged"
    ensures Upper("SYSTEM") == "SYSTEM" && Upper("UNCLASSIFIED") == "UNCLASSIFIED" && Upper("UNLOGGED") == "UNLOGGED"
  {
  }

  lemma SameLower(category: string, literal: string)
    requires Upper(category) == category && Upper(literal) == literal
    ensures Lower(category) == Lower(literal) <==> category == literal
  {
    EqIgnoreCaseIsEqualUpper(category, literal);
  }

  /** A built segment is confident exactly when its category is evidence. */
  lemma ConfidentMeans(events: seq<Event>, start: int, end: int, k: nat)
    requires k < |Segments(events, start, end)|
    ensures var s := Segments(events, start, end)[k]; IsConfident(s) <==> IsEvidence()(s)
  {
    var s := Segments(events, start, end)[k];
    ClassifiedIsConfident(events, start, end, k);
    SegmentIsUpper(events, start, end, k);
    LowerLiterals();
    SameLower(s.category, "SYSTEM");
    SameLower(s.category, "UNCLASSIFIED");
    SameLower(s.category, "UNLOGGED");
  }

  lemma {:induction false} FilterAgrees(s: seq<Segment>, p: Segment -> bool, q: Segment -> bool)
    requires forall k :: 0 <= k < |s| ==> p(s[k]) == q(s[k])
    ensures Filter(s, p) == Filter(s, q)
  {
    if s != [] {
      FilterAgrees(s[..|s| - 1], p, q);
    }
  }

  lemma ConfidentIsEvidence(events: seq<Event>, start: int, end: int)
    ensures var segments := Segments(events, start, end);
      Filter(segments, ConfidentSegment()) == Filter(segments, IsEvidence())
  {
    var segments := Segments(events, start, end);
    forall k | 0 <= k < |segments| ensures ConfidentSegment()(segments[k]) == IsEvidence()(segments[k]) {
      ConfidentMeans(events, start, end, k);
    }
    FilterAgrees(segments, ConfidentSegment(), IsEvidence());
  }

  // ----- Runs ---------------------------------------------------------------

  /** Segments of one category, evidence throughout, with no gap of more than a second. */
  ghost predicate IsStretch(segments: seq<Segment>, a: int, b: int) {
    && 0 <= a < b <= |segments|
    && (forall i :: a <= i < b ==> IsConfident(segments[i]))
    && (forall i, j :: a <= i < b && j == i + 1 < b ==>
          segments[j].category == segments[i].category && segments[j].startedAt - segments[i].endedAt <= 1)
  }

  /** A run is such a stretch, whichever way it is read. */
  lemma {:induction false} RunIsStretch(segments: seq<Segment>, a: int, b: int)
    ensures IsRun(segments, a, b) <==> IsStretch(segments, a, b)
    decreases b
  {
    if 0 <= a < b - 1 < |segments| {
      RunIsStretch(segments, a, b - 1);
      assert IsStretch(segments, a, b) ==> IsStretch(segments, a, b - 1) && Continues(segments[b - 2], segments[b - 1]);
    }
  }

  // ----- The summary --------------------------------------------------------

  /** Whether the work changes at an index, within half an hour of the segment before. */
  function WorkChanges(segments: seq<Segment>): int -> bool {
    i => 0 < i < |segments| && !SameWork(segments[i - 1].category, segments[i].category)
         && segments[i].startedAt - segments[i - 1].endedAt <= 1800
  }

  lemma {:induction false} FocusIsShown(events: seq<Event>, start: int, end: int)
    ensures var sorted := SortByTime(events);
      Count(WindowWhere(sorted, start, end, FocusLane()), start, end) ==
      Count(ShowsOneOf(sorted, start, end, ["FOCUS_WORK", "TASK_MANAGEMENT", "REFERENCE"]), start, end)
  {
    var sorted := SortByTime(events);
    var p := WindowWhere(sorted, start, end, FocusLane());
    var q := ShowsOneOf(sorted, start, end, ["FOCUS_WORK", "TASK_MANAGEMENT", "REFERENCE"]);
    forall s ensures p(s) == q(s) {
      if Shown(sorted, s).Some? {
        ChartRows.SafeIsUpper(Shown(sorted, s).value);
        LaneOf(SafeCategory(Shown(sorted, s).value));
      }
    }
    CountSame(p, q, start, end);
  }

  lemma {:induction false} AllUpperFiltered(segments: seq<Segment>, p: Segment -> bool)
    requires AllUpper(segments)
    ensures AllUpper(Filter(segments, p))
  {
    if segments != [] {
      AllUpperFiltered(segments[..|segments| - 1], p);
    }
  }

  lemma {:induction false} SwitchesAreWorkChanges(segments: seq<Segment>)
    requires AllUpper(segments)
    ensures Count(ChangesLane(segments), 0, |segments|) == Count(WorkChanges(segments), 0, |segments|)
  {
    forall i | 0 <= i < |segments| ensures ChangesLane(segments)(i) == WorkChanges(segments)(i) {
      if i > 0 {
        LaneChangeMeans(segments[i - 1], segments[i]);
      }
    }
    CountSame(ChangesLane(segments), WorkChanges(segments), 0, |segments|);
  }

  /** A day with under a minute of active time has no summary. Any other says: the seconds something but SYSTEM
      was on screen; the seconds FOCUS_WORK, TASK_MANAGEMENT or REFERENCE was, confidently; the events with
      measured time; the changes of work between segments that are evidence, at most half an hour apart; and the
      longest stretch of one category. */
  lemma {:induction false} SummarySays(events: seq<Event>, start: int, end: int)
    ensures var summary, sorted := Summarize(events, start, end), SortByTime(events);
            var evidence := Filter(Segments(events, start, end), IsEvidence());
            var active := ChartRows.ActiveShown(events, start, end);
      if active < 60 then summary == NoDataSummary
      else
        && summary.ReadySummary? && summary.activeSeconds == active
        && summary.focusedSeconds ==
           Count(ShowsOneOf(sorted, start, end, ["FOCUS_WORK", "TASK_MANAGEMENT", "REFERENCE"]), start, end)
        && summary.eventCount == Count(HasTime(sorted, start, end), 0, |sorted|)
        && summary.meaningfulSwitchCount == Count(WorkChanges(evidence), 0, |evidence|)
        && IsLongestRun(Segments(events, start, end), summary.longestUninterruptedSeconds)
  {
    SummaryIsExact(events, start, end, false, false, (category: string) => category);
    ChartRows.ActiveIsShown(events, start, end);
    FocusIsShown(events, start, end);
    ConfidentIsEvidence(events, start, end);
    SegmentsAreUpper(SortByTime(events), start, end, |events|);
    AllUpperFiltered(Segments(events, start, end), IsEvidence());
    SwitchesAreWorkChanges(Filter(Segments(events, start, end), IsEvidence()));
  }
}
