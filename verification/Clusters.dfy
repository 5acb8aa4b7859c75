/** Transitions between meaningful segments, and the switching clusters they form. */
module Clusters {
  import opened Prelude
  import opened Sorting
  import opened Timeline

  const SWITCHING_CLUSTER_MIN_TRANSITIONS: nat := 3
  const SWITCHING_CLUSTER_WINDOW_SECONDS: nat := 300

  // ----- Transitions --------------------------------------------------------

  predicate IsMeaningful(category: string) {
    var upper := Upper(category);
    upper != "UNCLASSIFIED" && upper != "SYSTEM" && upper != "IDLE" && upper != "UNLOGGED"
  }

  function Meaningful(segments: seq<Segment>): seq<Segment> {
    Filter(segments, (s: Segment) => IsMeaningful(s.category))
  }

  datatype Transition = Transition(
    occurredAt: int,
    fromCategory: string,
    toCategory: string,
    confidence: Confidence)

  predicate Differ(left: Segment, right: Segment) {
    !EqIgnoreCase(left.category, right.category)
  }

  /** One marker per adjacent pair that differs. */
  function Changes(segments: seq<Segment>): seq<Transition> {
    if |segments| < 2 then []
    else
      var left, right := segments[|segments| - 2], segments[|segments| - 1];
      Changes(segments[..|segments| - 1]) +
      (if Differ(left, right)
       then [Transition(right.startedAt, left.category, right.category,
                        WeakerConfidence(left.confidence, right.confidence))]
       else [])
  }

  function BuildTransitions(segments: seq<Segment>): seq<Transition> {
    Changes(Meaningful(segments))
  }

  function Times(transitions: seq<Transition>): (times: seq<int>)
    ensures |times| == |transitions|
  {
    seq(|transitions|, i requires 0 <= i < |transitions| => transitions[i].occurredAt)
  }

  /** Each start is later than the one before, and the last is before `bound`. */
  predicate StartsRise(segments: seq<Segment>, bound: int) {
    segments != [] ==>
      && segments[|segments| - 1].startedAt < bound
      && StartsRise(segments[..|segments| - 1], segments[|segments| - 1].startedAt)
  }

  lemma {:induction false} StartsRiseWiden(segments: seq<Segment>, bound: int, wider: int)
    requires StartsRise(segments, bound) && bound <= wider
    ensures StartsRise(segments, wider)
  {
  }

  lemma {:induction false} TidyStartsRise(segments: seq<Segment>, lo: int, hi: int)
    requires Tidy(segments, lo, hi)
    ensures StartsRise(segments, hi)
  {
    if segments != [] {
      var init := segments[..|segments| - 1];
      TidyStartsRise(init, lo, segments[|segments| - 1].startedAt) by {
        TidyNarrow(init, lo, hi, segments[|segments| - 1].startedAt);
      }
    }
  }

  lemma {:induction false} TidyNarrow(segments: seq<Segment>, lo: int, hi: int, narrower: int)
    requires Tidy(segments, lo, hi) && EndsBy(segments, narrower)
    ensures Tidy(segments, lo, narrower)
  {
    if segments != [] {
      TidyNarrow(segments[..|segments| - 1], lo, hi, narrower);
    }
  }

  lemma {:induction false} FilterStartsRise(segments: seq<Segment>, p: Segment -> bool, bound: int)
    requires StartsRise(segments, bound)
    ensures StartsRise(Filter(segments, p), bound)
  {
    if segments != [] {
      var init, last := segments[..|segments| - 1], segments[|segments| - 1];
      FilterStartsRise(init, p, last.startedAt);
      var kept := Filter(init, p);
      if p(last) {
        assert (kept + [last])[..|kept|] == kept;
      } else {
        StartsRiseWiden(kept, last.startedAt, bound);
        assert Filter(segments, p) == kept;
      }
    }
  }

  ghost predicate Ascending(times: seq<int>) {
    forall i, j :: 0 <= i <= j < |times| ==> times[i] <= times[j]
  }

  ghost predicate Rising(times: seq<int>) {
    forall i, j :: 0 <= i < j < |times| ==> times[i] < times[j]
  }

  lemma {:induction false} ChangesAscend(segments: seq<Segment>, bound: int)
    requires StartsRise(segments, bound)
    ensures Rising(Times(Changes(segments)))
    ensures forall i :: 0 <= i < |Changes(segments)| ==> Changes(segments)[i].occurredAt < bound
  {
    if |segments| >= 2 {
      var init := segments[..|segments| - 1];
      ChangesAscend(init, segments[|segments| - 1].startedAt);
      var all, c := Changes(segments), Changes(init);
      assert forall i :: 0 <= i < |c| ==> all[i] == c[i] && Times(all)[i] == Times(c)[i];
    }
  }

  /** The transitions of a window's segments are in time order, no two at one second. */
  lemma TransitionsAscend(events: seq<Event>, windowStart: int, windowEnd: int)
    ensures Rising(Times(BuildTransitions(Segments(events, windowStart, windowEnd))))
    ensures Ascending(Times(BuildTransitions(Segments(events, windowStart, windowEnd))))
  {
    var segments := Segments(events, windowStart, windowEnd);
    SegmentsDenote(events, windowStart, windowEnd);
    TidyStartsRise(segments, windowStart, windowEnd);
    FilterStartsRise(segments, (s: Segment) => IsMeaningful(s.category), windowEnd);
    ChangesAscend(Meaningful(segments), windowEnd);
  }

  // ----- What a transition denotes ------------------------------------------

  predicate MeaningfulAt(segments: seq<Segment>, s: int) {
    SegmentAt(segments, s).Some? && IsMeaningful(SegmentAt(segments, s).value.category)
  }

  /** The transition marks the coming on screen of `right`, as confident as the less confident of the two. */
  predicate Marks(t: Transition, left: Segment, right: Segment) {
    && left.category == t.fromCategory && right.category == t.toCategory
    && t.confidence == WeakerConfidence(left.confidence, right.confidence)
  }

  /** The segments on screen at `s`, the last meaningful second before the transition, and at its own second
      are those it marks. */
  ghost predicate Switches(segments: seq<Segment>, s: int, t: Transition) {
    && s < t.occurredAt
    && MeaningfulAt(segments, s) && MeaningfulAt(segments, t.occurredAt)
    && Marks(t, SegmentAt(segments, s).value, SegmentAt(segments, t.occurredAt).value)
    && forall v :: s < v < t.occurredAt ==> !MeaningfulAt(segments, v)
  }

  ghost predicate SwitchAt(segments: seq<Segment>, t: Transition) {
    exists s :: Switches(segments, s, t)
  }

  /** The one transition a further segment can add. */
  function Added(meaningful: seq<Segment>, last: Segment): seq<Transition> {
    if IsMeaningful(last.category) && meaningful != [] && Differ(meaningful[|meaningful| - 1], last) then
      var left := meaningful[|meaningful| - 1];
      [Transition(last.startedAt, left.category, last.category, WeakerConfidence(left.confidence, last.confidence))]
    else []
  }

  lemma TransitionsSnoc(init: seq<Segment>, last: Segment)
    ensures BuildTransitions(init + [last]) == BuildTransitions(init) + Added(Meaningful(init), last)
  {
    var m := Meaningful(init);
    FilterSnoc(init, last, (s: Segment) => IsMeaningful(s.category));
    if IsMeaningful(last.category) {
      assert Meaningful(init + [last]) == m + [last];
      assert (m + [last])[..|m|] == m;
    }
  }

  /** Every transition of a list comes before the next segment. */
  lemma {:induction false} TransitionsBefore(init: seq<Segment>, lo: int, hi: int, bound: int, t: Transition)
    requires Tidy(init, lo, hi) && EndsBy(init, bound) && t in BuildTransitions(init)
    ensures t.occurredAt < bound
  {
    TidyNarrow(init, lo, hi, bound);
    TidyStartsRise(init, lo, bound);
    FilterStartsRise(init, (s: Segment) => IsMeaningful(s.category), bound);
    ChangesAscend(Meaningful(init), bound);
  }

  /** Before the last segment starts, a tidy list shows what it shows without it; from there on, without it,
      nothing. */
  lemma TidySegmentAt(segments: seq<Segment>, lo: int, hi: int, s: int)
    requires Tidy(segments, lo, hi) && segments != []
    ensures var init, last := segments[..|segments| - 1], segments[|segments| - 1];
      && SegmentAt(init, s) == (if s < last.startedAt then SegmentAt(segments, s) else None)
      && (last.Covers(s) ==> SegmentAt(segments, s) == Some(last))
      && (s >= last.endedAt ==> SegmentAt(segments, s) == None)
  {
    TidyInit(segments, lo, hi, s);
    TidyLast(segments, lo, hi, s);
  }

  /** The last meaningful segment holds the last meaningful second. */
  lemma {:induction false} LastMeaningful(segments: seq<Segment>, lo: int, hi: int, s: int)
    requires Tidy(segments, lo, hi)
    ensures var m := Meaningful(segments);
      if m == [] then !MeaningfulAt(segments, s)
      else
        var last := m[|m| - 1];
        && (s == last.endedAt - 1 ==> SegmentAt(segments, s) == Some(last) && MeaningfulAt(segments, s))
        && (s >= last.endedAt ==> !MeaningfulAt(segments, s))
        && EndsBy(m, segments[|segments| - 1].endedAt)
  {
    if segments != [] {
      var init, last := segments[..|segments| - 1], segments[|segments| - 1];
      assert segments == init + [last];
      FilterSnoc(init, last, (s: Segment) => IsMeaningful(s.category));
      LastMeaningful(init, lo, hi, s);
      TidySegmentAt(segments, lo, hi, s);
      if !IsMeaningful(last.category) {
        assert Meaningful(segments) == Meaningful(init);
      }
    }
  }

  /** Up to the last segment, a list switches as the list without it does. */
  lemma {:induction false} SwitchEarlier(segments: seq<Segment>, lo: int, hi: int, t: Transition)
    requires Tidy(segments, lo, hi) && segments != [] && t.occurredAt < segments[|segments| - 1].startedAt
    ensures SwitchAt(segments, t) <==> SwitchAt(segments[..|segments| - 1], t)
  {
    var init, last := segments[..|segments| - 1], segments[|segments| - 1];
    forall v | v < last.startedAt ensures SegmentAt(init, v) == SegmentAt(segments, v) {
      TidySegmentAt(segments, lo, hi, v);
    }
    forall s ensures Switches(segments, s, t) <==> Switches(init, s, t) {
      assert forall v :: s < v < t.occurredAt ==> MeaningfulAt(init, v) == MeaningfulAt(segments, v);
    }
  }

  /** A switch at or after the last segment's start is at that start, from the last meaningful segment
      before it. */
  lemma {:induction false} SwitchIsAdded(segments: seq<Segment>, lo: int, hi: int, t: Transition, s: int)
    requires Tidy(segments, lo, hi) && segments != [] && t.occurredAt >= segments[|segments| - 1].startedAt
    requires !EqIgnoreCase(t.fromCategory, t.toCategory) && Switches(segments, s, t)
    ensures t in Added(Meaningful(segments[..|segments| - 1]), segments[|segments| - 1])
  {
    var init, last := segments[..|segments| - 1], segments[|segments| - 1];
    var m := Meaningful(init);
    TidySegmentAt(segments, lo, hi, t.occurredAt);
    TidySegmentAt(segments, lo, hi, last.startedAt);
    assert MeaningfulAt(segments, last.startedAt);
    TidySegmentAt(segments, lo, hi, s);
    LastMeaningful(init, lo, hi, s);
    var e := m[|m| - 1].endedAt - 1;
    LastMeaningful(init, lo, hi, e);
    TidySegmentAt(segments, lo, hi, e);
    assert MeaningfulAt(segments, e);
    assert s == e && t.occurredAt == last.startedAt;
    assert Added(m, last)[0] == t;
  }

  lemma {:induction false} AddedIsSwitch(segments: seq<Segment>, lo: int, hi: int, t: Transition)
    requires Tidy(segments, lo, hi) && segments != []
    requires t in Added(Meaningful(segments[..|segments| - 1]), segments[|segments| - 1])
    ensures t.occurredAt == segments[|segments| - 1].startedAt
    ensures !EqIgnoreCase(t.fromCategory, t.toCategory) && SwitchAt(segments, t)
  {
    var init, last := segments[..|segments| - 1], segments[|segments| - 1];
    var m := Meaningful(init);
    var e := m[|m| - 1].endedAt - 1;
    LastMeaningful(init, lo, hi, e);
    TidySegmentAt(segments, lo, hi, e);
    TidySegmentAt(segments, lo, hi, last.startedAt);
    forall v | e < v < t.occurredAt ensures !MeaningfulAt(segments, v) {
      LastMeaningful(init, lo, hi, v);
      TidySegmentAt(segments, lo, hi, v);
    }
    assert Switches(segments, e, t);
  }

  /** Main result: the transitions of a timeline are exactly its switches, second by second. There is one if
      and only if at its second the category it enters comes on screen, the last meaningful second before
      showed the category it leaves, and the two differ; it is as confident as the less confident segment. */
  lemma {:induction false} TransitionsAreSwitches(segments: seq<Segment>, lo: int, hi: int, t: Transition)
    requires Tidy(segments, lo, hi)
    ensures t in BuildTransitions(segments) <==>
            !EqIgnoreCase(t.fromCategory, t.toCategory) && SwitchAt(segments, t)
  {
    if segments != [] {
      var init, last := segments[..|segments| - 1], segments[|segments| - 1];
      assert segments == init + [last];
      TransitionsSnoc(init, last);
      TransitionsAreSwitches(init, lo, hi, t);
      if t in BuildTransitions(init) {
        TransitionsBefore(init, lo, hi, last.startedAt, t);
      }
      if t in Added(Meaningful(init), last) {
        AddedIsSwitch(segments, lo, hi, t);
      }
      if t.occurredAt < last.startedAt {
        SwitchEarlier(segments, lo, hi, t);
      } else if !EqIgnoreCase(t.fromCategory, t.toCategory) && SwitchAt(segments, t) {
        var s :| Switches(segments, s, t);
        SwitchIsAdded(segments, lo, hi, t, s);
      }
    }
  }

  // ----- Ranges of switching ------------------------------------------------

  datatype Range = Range(first: nat, last: nat)

  /** The last index of the run starting at `start` whose every step stays within the window. */
  function Reach(times: seq<int>, start: nat, end: nat): (r: nat)
    requires start <= end < |times|
    ensures end <= r < |times|
    decreases |times| - end
  {
    if end + 1 < |times| && times[end + 1] - times[start] <= SWITCHING_CLUSTER_WINDOW_SECONDS
    then Reach(times, start, end + 1)
    else end
  }

  function QualifyingBefore(times: seq<int>, n: nat): seq<Range>
    requires n <= |times|
  {
    if n == 0 then []
    else
      var end := Reach(times, n - 1, n - 1);
      QualifyingBefore(times, n - 1) +
      (if end + 1 - (n - 1) >= SWITCHING_CLUSTER_MIN_TRANSITIONS then [Range(n - 1, end)] else [])
  }

  function MergeRange(merged: seq<Range>, r: Range): seq<Range> {
    var n := |merged|;
    if n > 0 && r.first <= merged[n - 1].last
    then merged[n - 1 := Range(merged[n - 1].first, Max(merged[n - 1].last, r.last))]
    else merged + [r]
  }

  function MergeAll(ranges: seq<Range>): seq<Range> {
    if ranges == [] then []
    else MergeRange(MergeAll(ranges[..|ranges| - 1]), ranges[|ranges| - 1])
  }

  function SwitchingRanges(times: seq<int>): seq<Range> {
    MergeAll(QualifyingBefore(times, |times|))
  }

  datatype Cluster = Cluster(
    startedAt: int,
    endedAt: int,
    transitionCount: nat,
    categories: seq<string>,
    confidence: Confidence)

  function Noted(categories: seq<string>, category: string): seq<string> {
    if category in categories then categories else categories + [category]
  }

  /** The categories left and entered, in order of first appearance. */
  function CategoriesOf(slice: seq<Transition>): seq<string> {
    if slice == [] then []
    else
      var last := slice[|slice| - 1];
      Noted(Noted(CategoriesOf(slice[..|slice| - 1]), last.fromCategory), last.toCategory)
  }

  function WeakestOf(slice: seq<Transition>): Confidence {
    if slice == [] then High
    else WeakerConfidence(WeakestOf(slice[..|slice| - 1]), slice[|slice| - 1].confidence)
  }

  /** The transitions a range names. */
  function SliceOf(transitions: seq<Transition>, r: Range): (slice: seq<Transition>)
    requires r.first <= r.last < |transitions|
    ensures |slice| == r.last - r.first + 1
  {
    transitions[r.first..r.last + 1]
  }

  function ClusterOf(slice: seq<Transition>): Cluster
    requires slice != []
  {
    Cluster(slice[0].occurredAt, slice[|slice| - 1].occurredAt, |slice|, CategoriesOf(slice), WeakestOf(slice))
  }

  predicate Touches(t: Transition, category: string) { t.fromCategory == category || t.toCategory == category }

  ghost predicate Distinct(categories: seq<string>) {
    forall i, j :: 0 <= i < j < |categories| ==> categories[i] != categories[j]
  }

  /** Listed is touched by some transition. */
  ghost predicate IsTouched(slice: seq<Transition>, category: string) {
    exists i :: 0 <= i < |slice| && Touches(slice[i], category)
  }

  lemma IsTouchedSnoc(slice: seq<Transition>, category: string)
    requires slice != []
    ensures IsTouched(slice, category) <==>
            IsTouched(slice[..|slice| - 1], category) || Touches(slice[|slice| - 1], category)
  {
    var init := slice[..|slice| - 1];
    if IsTouched(init, category) {
      var i :| 0 <= i < |init| && Touches(init[i], category);
      assert slice[i] == init[i];
    }
    if IsTouched(slice, category) && !Touches(slice[|slice| - 1], category) {
      var i :| 0 <= i < |slice| && Touches(slice[i], category);
      assert init[i] == slice[i];
    }
  }

  /** A cluster names each category its transitions leave or enter, once, and no other. */
  lemma {:induction false} CategoriesAreTouched(slice: seq<Transition>, category: string)
    ensures Distinct(CategoriesOf(slice))
    ensures category in CategoriesOf(slice) <==> IsTouched(slice, category)
  {
    if slice != [] {
      CategoriesAreTouched(slice[..|slice| - 1], category);
      IsTouchedSnoc(slice, category);
    }
  }

  /** Categories stand in order of first appearance: later transitions only add to the end, and a transition's
      own are the one it leaves, then the one it enters. */
  lemma {:induction false} CategoriesInOrder(slice: seq<Transition>, t: Transition)
    ensures var before, after := CategoriesOf(slice), CategoriesOf(slice + [t]);
      && before <= after
      && after[|before|..] == (if t.fromCategory in before then [] else [t.fromCategory])
         + (if t.toCategory in before || t.toCategory == t.fromCategory then [] else [t.toCategory])
  {
    assert (slice + [t])[..|slice|] == slice;
  }

  /** A cluster is as confident as the least confident of its transitions. */
  lemma {:induction false} WeakestIsLeast(slice: seq<Transition>)
    requires slice != []
    ensures forall i :: 0 <= i < |slice| ==> Rank(WeakestOf(slice)) <= Rank(slice[i].confidence)
    ensures exists i :: 0 <= i < |slice| && WeakestOf(slice) == slice[i].confidence
  {
    var init, last := slice[..|slice| - 1], slice[|slice| - 1];
    if init == [] {
      assert WeakestOf(slice) == slice[0].confidence;
    } else {
      WeakestIsLeast(init);
      var i :| 0 <= i < |init| && WeakestOf(init) == init[i].confidence;
      assert slice[i] == init[i];
      assert forall k :: 0 <= k < |init| ==> slice[k] == init[k];
      var k := if WeakestOf(slice) == last.confidence then |init| else i;
      assert WeakestOf(slice) == slice[k].confidence;
    }
  }

  method DescribeCluster(slice: seq<Transition>) returns (categories: seq<string>, confidence: Confidence)
    ensures categories == CategoriesOf(slice) && confidence == WeakestOf(slice)
  {
    categories, confidence := [], High;
    for i := 0 to |slice|
      invariant categories == CategoriesOf(slice[..i]) && confidence == WeakestOf(slice[..i])
    {
      assert slice[..i + 1][..i] == slice[..i];
      if slice[i].fromCategory !in categories {
        categories := categories + [slice[i].fromCategory];
      }
      if slice[i].toCategory !in categories {
        categories := categories + [slice[i].toCategory];
      }
      confidence := WeakerConfidence(confidence, slice[i].confidence);
    }
    assert slice[..|slice|] == slice;
  }

  predicate IsIndex(r: Range, n: nat) { r.first <= r.last < n }

  predicate AreIndices(ranges: seq<Range>, n: nat) {
    forall k :: 0 <= k < |ranges| ==> IsIndex(ranges[k], n)
  }

  ghost predicate AreClusters(clusters: seq<Cluster>, transitions: seq<Transition>, ranges: seq<Range>) {
    && |clusters| == |ranges|
    && forall k :: 0 <= k < |ranges| ==>
         IsIndex(ranges[k], |transitions|) && clusters[k] == ClusterOf(SliceOf(transitions, ranges[k]))
  }

  method MakeCluster(slice: seq<Transition>) returns (cluster: Cluster)
    requires slice != []
    ensures cluster == ClusterOf(slice)
  {
    var categories, confidence := DescribeCluster(slice);
    cluster := Cluster(slice[0].occurredAt, slice[|slice| - 1].occurredAt, |slice|, categories, confidence);
  }

  lemma AreClustersSnoc(
    clusters: seq<Cluster>, transitions: seq<Transition>, ranges: seq<Range>, i: nat, cluster: Cluster)
    requires i < |ranges| && AreClusters(clusters, transitions, ranges[..i])
    requires IsIndex(ranges[i], |transitions|) && cluster == ClusterOf(SliceOf(transitions, ranges[i]))
    ensures AreClusters(clusters + [cluster], transitions, ranges[..i + 1])
  {
  }

  method MakeClusters(transitions: seq<Transition>, ranges: seq<Range>) returns (clusters: seq<Cluster>)
    requires AreIndices(ranges, |transitions|)
    ensures AreClusters(clusters, transitions, ranges)
  {
    clusters := [];
    for i := 0 to |ranges|
      invariant AreClusters(clusters, transitions, ranges[..i])
    {
      assert IsIndex(ranges[i], |transitions|);
      var cluster := MakeCluster(SliceOf(transitions, ranges[i]));
      AreClustersSnoc(clusters, transitions, ranges, i, cluster);
      clusters := clusters + [cluster];
    }
    assert ranges[..|ranges|] == ranges;
  }

  method GroupSwitchingClusters(transitions: seq<Transition>) returns (clusters: seq<Cluster>)
    ensures AreClusters(clusters, transitions, SwitchingRanges(Times(transitions)))
  {
    var merged := FindSwitchingRanges(transitions);
    RangesAreIndices(Times(transitions), |transitions|, merged);
    clusters := MakeClusters(transitions, merged);
  }

  method FindSwitchingRanges(transitions: seq<Transition>) returns (merged: seq<Range>)
    ensures merged == SwitchingRanges(Times(transitions))
  {
    var times := Times(transitions);
    var qualifying: seq<Range> := [];
    for start := 0 to |transitions|
      invariant qualifying == QualifyingBefore(times, start)
    {
      var end := start;
      while end + 1 < |transitions|
            && transitions[end + 1].occurredAt - transitions[start].occurredAt <= SWITCHING_CLUSTER_WINDOW_SECONDS
        invariant start <= end < |transitions|
        invariant Reach(times, start, start) == Reach(times, start, end)
      {
        end := end + 1;
      }
      if end + 1 - start >= SWITCHING_CLUSTER_MIN_TRANSITIONS {
        qualifying := qualifying + [Range(start, end)];
      }
    }

    merged := [];
    for i := 0 to |qualifying|
      invariant merged == MergeAll(qualifying[..i])
    {
      assert qualifying[..i + 1][..i] == qualifying[..i];
      var r := qualifying[i];
      if |merged| > 0 && r.first <= merged[|merged| - 1].last {
        merged := merged[|merged| - 1 :=
          Range(merged[|merged| - 1].first, Max(merged[|merged| - 1].last, r.last))];
      } else {
        merged := merged + [r];
      }
    }
    assert qualifying[..|qualifying|] == qualifying;
  }

  // ----- What the ranges are ------------------------------------------------

  /** At least three transitions spanning at most five minutes. */
  predicate Qualifies(times: seq<int>, a: int, b: int) {
    && 0 <= a <= b < |times|
    && b - a + 1 >= SWITCHING_CLUSTER_MIN_TRANSITIONS
    && times[b] - times[a] <= SWITCHING_CLUSTER_WINDOW_SECONDS
  }

  /** Transitions `p` and `p + 1` lie in one qualifying window. */
  ghost predicate Joined(times: seq<int>, p: int) {
    exists a, b :: Qualifies(times, a, b) && a <= p < b
  }

  ghost predicate InQualifyingWindow(times: seq<int>, j: int) {
    exists a, b :: Qualifies(times, a, b) && a <= j <= b
  }

  predicate InRange(r: Range, j: int) { r.first <= j <= r.last }

  lemma {:induction false} ReachIsFurthest(times: seq<int>, start: nat, end: nat, b: nat)
    requires Ascending(times) && start <= end < |times|
    requires times[end] - times[start] <= SWITCHING_CLUSTER_WINDOW_SECONDS
    ensures times[Reach(times, start, end)] - times[start] <= SWITCHING_CLUSTER_WINDOW_SECONDS
    ensures b < |times| && times[b] - times[start] <= SWITCHING_CLUSTER_WINDOW_SECONDS ==>
              b <= Reach(times, start, end)
    decreases |times| - end
  {
    if end + 1 < |times| && times[end + 1] - times[start] <= SWITCHING_CLUSTER_WINDOW_SECONDS {
      ReachIsFurthest(times, start, end + 1, b);
    } else if end < b < |times| {
      assert times[end + 1] <= times[b];
    }
  }

  /** Ranges in order and disjoint, each of more than one transition, all starting before `n`. */
  ghost predicate Separated(times: seq<int>, merged: seq<Range>, n: nat) {
    && (forall k :: 0 <= k < |merged| ==> merged[k].first < merged[k].last < |times| && merged[k].first < n)
    && (forall j, k :: 0 <= j < k < |merged| ==> merged[j].last < merged[k].first)
  }

  ghost predicate Connected(times: seq<int>, merged: seq<Range>) {
    forall k, p :: 0 <= k < |merged| && merged[k].first <= p < merged[k].last ==> Joined(times, p)
  }

  ghost predicate Contains(merged: seq<Range>, a: int, b: int) {
    exists k :: 0 <= k < |merged| && merged[k].first <= a && b <= merged[k].last
  }

  ghost predicate Complete(times: seq<int>, merged: seq<Range>, n: nat) {
    forall a, b :: Qualifies(times, a, b) && a < n ==> Contains(merged, a, b)
  }

  lemma MergeKeepsSeparated(times: seq<int>, merged: seq<Range>, n: nat, r: Range)
    requires Separated(times, merged, n) && r.first == n && Qualifies(times, r.first, r.last)
    ensures Separated(times, MergeRange(merged, r), n + 1)
  {
    var result := MergeRange(merged, r);
    forall j, k | 0 <= j < k < |result| ensures result[j].last < result[k].first {
      if |merged| > 0 && j < |merged| - 1 {
        assert merged[j].last < merged[|merged| - 1].first;
      }
    }
  }

  lemma MergeKeepsConnected(times: seq<int>, merged: seq<Range>, n: nat, r: Range)
    requires Separated(times, merged, n) && Connected(times, merged)
    requires r.first == n && Qualifies(times, r.first, r.last)
    ensures Connected(times, MergeRange(merged, r))
  {
    var result := MergeRange(merged, r);
    forall p | r.first <= p < r.last ensures Joined(times, p) {}
    forall k, p | 0 <= k < |result| && result[k].first <= p < result[k].last ensures Joined(times, p) {
      assert k < |result| - 1 ==> result[k] == merged[k];
    }
  }

  lemma MergeKeepsContents(times: seq<int>, merged: seq<Range>, n: nat, r: Range)
    requires Separated(times, merged, n) && r.first == n <= r.last
    ensures forall a, b :: Contains(merged, a, b) ==> Contains(MergeRange(merged, r), a, b)
    ensures forall b :: b <= r.last ==> Contains(MergeRange(merged, r), n, b)
  {
    var result := MergeRange(merged, r);
    var m := |result| - 1;
    forall a, b | Contains(merged, a, b) ensures Contains(result, a, b) {
      var k :| 0 <= k < |merged| && merged[k].first <= a && b <= merged[k].last;
      assert result[k].first <= a && b <= result[k].last;
    }
    forall b | b <= r.last ensures Contains(result, n, b) {
      assert result[m].first <= n && b <= result[m].last;
    }
  }

  ghost predicate MergedUpTo(times: seq<int>, merged: seq<Range>, n: nat) {
    Separated(times, merged, n) && Connected(times, merged) && Complete(times, merged, n)
  }

  /** The ranges once the run from transition `s` is considered. */
  function Advance(times: seq<int>, merged: seq<Range>, s: nat): seq<Range>
    requires s < |times|
  {
    var end := Reach(times, s, s);
    if end + 1 - s >= SWITCHING_CLUSTER_MIN_TRANSITIONS then MergeRange(merged, Range(s, end)) else merged
  }

  lemma MergeStep(times: seq<int>, merged: seq<Range>, s: nat, next: seq<Range>)
    requires Ascending(times) && s < |times| && MergedUpTo(times, merged, s)
    requires next == Advance(times, merged, s)
    ensures MergedUpTo(times, next, s + 1)
  {
    var end := Reach(times, s, s);
    ReachIsFurthest(times, s, s, 0);
    forall b | Qualifies(times, s, b) ensures b <= end {
      ReachIsFurthest(times, s, s, b);
    }
    if end + 1 - s >= SWITCHING_CLUSTER_MIN_TRANSITIONS {
      var r := Range(s, end);
      MergeKeepsSeparated(times, merged, s, r);
      MergeKeepsConnected(times, merged, s, r);
      MergeKeepsContents(times, merged, s, r);
      forall a, b | Qualifies(times, a, b) && a < s + 1 ensures Contains(MergeRange(merged, r), a, b) {
        assert a < s ==> Contains(merged, a, b);
      }
    }
  }

  lemma {:induction false} MergedSoFar(times: seq<int>, n: nat, merged: seq<Range>)
    requires Ascending(times) && n <= |times| && merged == MergeAll(QualifyingBefore(times, n))
    ensures MergedUpTo(times, merged, n)
  {
    if n > 0 {
      var prior := MergeAll(QualifyingBefore(times, n - 1));
      MergedSoFar(times, n - 1, prior);
      assert merged == Advance(times, prior, n - 1) by {
        MergeAllStep(times, n - 1);
      }
      MergeStep(times, prior, n - 1, merged);
    }
  }

  lemma MergeAllStep(times: seq<int>, s: nat)
    requires s < |times|
    ensures MergeAll(QualifyingBefore(times, s + 1)) == Advance(times, MergeAll(QualifyingBefore(times, s)), s)
  {
    var before, end := QualifyingBefore(times, s), Reach(times, s, s);
    assert (before + [Range(s, end)])[..|before|] == before;
    assert before + [] == before;
  }

  /** Every range names transitions of the list, in any order of times. */
  lemma {:induction false} RangesAreIndices(times: seq<int>, n: nat, merged: seq<Range>)
    requires n <= |times| && merged == MergeAll(QualifyingBefore(times, n))
    ensures AreIndices(merged, |times|)
  {
    if n > 0 {
      var prior := MergeAll(QualifyingBefore(times, n - 1));
      RangesAreIndices(times, n - 1, prior);
      MergeAllStep(times, n - 1);
      AdvanceKeepsIndices(times, prior, n - 1);
    }
  }

  lemma AdvanceKeepsIndices(times: seq<int>, merged: seq<Range>, s: nat)
    requires s < |times| && AreIndices(merged, |times|)
    ensures AreIndices(Advance(times, merged, s), |times|)
  {
  }

  /** Main result. The ranges are the connected components of qualifying windows: in order and
      disjoint; a transition is in one exactly when it lies in a qualifying window; neighbours inside
      a range are joined by a window; and every qualifying window lies inside one range. */
  lemma SwitchingRangesAreComponents(times: seq<int>)
    requires Ascending(times)
    ensures var ranges := SwitchingRanges(times);
      && Separated(times, ranges, |times|)
      && (forall j :: (exists k :: 0 <= k < |ranges| && InRange(ranges[k], j)) <==> InQualifyingWindow(times, j))
      && Connected(times, ranges)
      && (forall a, b :: Qualifies(times, a, b) ==> Contains(ranges, a, b))
  {
    var ranges := SwitchingRanges(times);
    MergedSoFar(times, |times|, ranges);
    forall j | InQualifyingWindow(times, j) ensures exists k :: 0 <= k < |ranges| && InRange(ranges[k], j) {
      var a, b :| Qualifies(times, a, b) && a <= j <= b;
      assert Contains(ranges, a, b);
      var k :| 0 <= k < |ranges| && ranges[k].first <= a && b <= ranges[k].last;
      assert InRange(ranges[k], j);
    }
    forall j, k | 0 <= k < |ranges| && InRange(ranges[k], j) ensures InQualifyingWindow(times, j) {
      var p := if j < ranges[k].last then j else j - 1;
      assert Joined(times, p);
      var a, b :| Qualifies(times, a, b) && a <= p < b;
      assert a <= j <= b;
    }
  }

  /** Two transitions share a cluster exactly when every step between them is joined. */
  lemma SameClusterIffJoined(times: seq<int>, i: nat, j: nat)
    requires Ascending(times) && i < j < |times|
    ensures (exists k :: 0 <= k < |SwitchingRanges(times)| &&
               InRange(SwitchingRanges(times)[k], i) && InRange(SwitchingRanges(times)[k], j)) <==>
            (forall p :: i <= p < j ==> Joined(times, p))
  {
    var ranges := SwitchingRanges(times);
    SwitchingRangesAreComponents(times);
    if forall p :: i <= p < j ==> Joined(times, p) {
      var k := JoinedStaysInside(times, i, j);
    }
  }

  lemma {:induction false} JoinedStaysInside(times: seq<int>, i: nat, j: nat) returns (k: nat)
    requires Ascending(times) && i < j < |times|
    requires forall p :: i <= p < j ==> Joined(times, p)
    ensures k < |SwitchingRanges(times)|
    ensures InRange(SwitchingRanges(times)[k], i) && InRange(SwitchingRanges(times)[k], j)
    decreases j
  {
    var ranges := SwitchingRanges(times);
    SwitchingRangesAreComponents(times);
    assert Joined(times, j - 1);
    var a, b :| Qualifies(times, a, b) && a <= j - 1 < b;
    assert Contains(ranges, a, b);
    k :| 0 <= k < |ranges| && ranges[k].first <= a && b <= ranges[k].last;
    if i < j - 1 {
      var m := JoinedStaysInside(times, i, j - 1);
      assert m == k;
    }
  }

  // ----- What the clusters say ----------------------------------------------

  /** At least three transitions, no more than five minutes from the first to the last. */
  lemma QualifyingWindow(times: seq<int>, a: int, b: int)
    requires 0 <= a <= b < |times|
    ensures Qualifies(times, a, b) <==> b - a >= 2 && times[b] - times[a] <= 300
  {
  }

  /** A range's first transition opens a qualifying window, and its last closes one. */
  lemma WindowsAtEnds(times: seq<int>, k: nat) returns (b: int, a: int)
    requires Ascending(times) && k < |SwitchingRanges(times)|
    ensures var r := SwitchingRanges(times)[k];
      && r.first < r.last < |times|
      && Qualifies(times, r.first, b) && b <= r.last && Qualifies(times, a, r.last) && r.first <= a
  {
    var r := SwitchingRanges(times)[k];
    SwitchingRangesAreComponents(times);
    assert Joined(times, r.first) && Joined(times, r.last - 1);
    var c, d :| Qualifies(times, c, d) && c <= r.first < d;
    var e, f :| Qualifies(times, e, f) && e <= r.last - 1 < f;
    WindowTouches(times, k, c, d);
    WindowTouches(times, k, e, f);
    b, a := d, e;
  }

  /** A qualifying window that meets a range lies in it. */
  lemma WindowTouches(times: seq<int>, k: nat, a: int, b: int)
    requires Ascending(times) && k < |SwitchingRanges(times)| && Qualifies(times, a, b)
    requires var r := SwitchingRanges(times)[k]; a <= r.last && r.first <= b
    ensures var r := SwitchingRanges(times)[k]; r.first <= a && b <= r.last
  {
    var ranges := SwitchingRanges(times);
    SwitchingRangesAreComponents(times);
    assert Contains(ranges, a, b);
    var m :| 0 <= m < |ranges| && ranges[m].first <= a && b <= ranges[m].last;
    assert m == k;
  }

  /** Before a range every time is earlier than its first, and past it later than its last. */
  lemma OutsideRange(times: seq<int>, k: nat, i: nat)
    requires Ascending(times) && k < |SwitchingRanges(times)| && i < |times|
    ensures var r := SwitchingRanges(times)[k];
      && r.first < r.last < |times|
      && (i < r.first ==> times[i] < times[r.first]) && (r.last < i ==> times[r.last] < times[i])
  {
    var r := SwitchingRanges(times)[k];
    var b, a := WindowsAtEnds(times, k);
    if i < r.first && times[i] == times[r.first] {
      WindowTouches(times, k, i, b);
    }
    if r.last < i && times[i] == times[r.last] {
      WindowTouches(times, k, a, i);
    }
  }

  /** Whether the transition at an index falls within the cluster's times. */
  function InCluster(times: seq<int>, c: Cluster): int -> bool {
    i => 0 <= i < |times| && c.startedAt <= times[i] <= c.endedAt
  }

  lemma ClusterEnds(transitions: seq<Transition>, r: Range)
    requires IsIndex(r, |transitions|)
    ensures var c, times := ClusterOf(SliceOf(transitions, r)), Times(transitions);
      c.startedAt == times[r.first] && c.endedAt == times[r.last] && c.transitionCount == r.last - r.first + 1
  {
    var slice := SliceOf(transitions, r);
    assert slice[0] == transitions[r.first] && slice[|slice| - 1] == transitions[r.last];
  }

  /** A cluster starts at its earliest transition and ends at its latest; it holds exactly the transitions with
      times from the one to the other, and counts them; and the next cluster starts after it ends. */
  lemma ClusterTimes(transitions: seq<Transition>, clusters: seq<Cluster>, k: nat)
    requires Ascending(Times(transitions)) && k < |clusters|
    requires AreClusters(clusters, transitions, SwitchingRanges(Times(transitions)))
    ensures var times, c := Times(transitions), clusters[k];
            var r := SwitchingRanges(times)[k];
      && r.first <= r.last < |times|
      && (forall i :: 0 <= i < |times| ==> (InRange(r, i) <==> c.startedAt <= times[i] <= c.endedAt))
      && c.startedAt == times[r.first] && c.endedAt == times[r.last]
      && c.transitionCount == Count(InCluster(times, c), 0, |times|)
      && (k + 1 < |clusters| ==> c.endedAt < clusters[k + 1].startedAt)
  {
    var times, c := Times(transitions), clusters[k];
    var r := SwitchingRanges(times)[k];
    assert IsIndex(r, |transitions|);
    ClusterEnds(transitions, r);
    forall i | 0 <= i < |times| ensures InRange(r, i) <==> c.startedAt <= times[i] <= c.endedAt {
      OutsideRange(times, k, i);
    }
    ClusterCount(times, c, r);
    if k + 1 < |clusters| {
      SwitchingRangesAreComponents(times);
      OutsideRange(times, k, SwitchingRanges(times)[k + 1].first);
    }
  }

  lemma {:induction false} ClusterCount(times: seq<int>, c: Cluster, r: Range)
    requires r.first <= r.last < |times|
    requires forall i :: 0 <= i < |times| ==> (InRange(r, i) <==> c.startedAt <= times[i] <= c.endedAt)
    ensures Count(InCluster(times, c), 0, |times|) == r.last - r.first + 1
  {
    var p := InCluster(times, c);
    CountSplit(p, 0, r.first, |times|);
    CountSplit(p, r.first, r.last + 1, |times|);
    CountConstant(p, 0, r.first, false);
    CountConstant(p, r.first, r.last + 1, true);
    CountConstant(p, r.last + 1, |times|, false);
  }
}
