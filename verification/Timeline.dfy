/** The local timeline: raw dwell events become clipped spans, and spans become
    merged category segments.

    Times are whole seconds. The meaning of a timeline is second by second: which
    event, if any, is on screen at second `s` (`Shown`). */
module Timeline {
  import opened Prelude
  import opened Sorting

  datatype Confidence = Unknown | Low | Medium | High

  datatype Event = Event(
    eventId: string,
    stableId: string,
    displayLabel: Option<string>,
    nameSuggestion: Option<string>,
    category: string,
    status: string,
    confidence: string,
    source: string,
    occurredAt: int,
    durationSeconds: nat)

  datatype Span = Span(start: int, end: int) {
    predicate Covers(s: int) { start <= s < end }
    function Seconds(): int { end - start }
  }

  datatype Segment = Segment(startedAt: int, endedAt: int, category: string, confidence: Confidence) {
    predicate Covers(s: int) { startedAt <= s < endedAt }
    function Seconds(): nat { Max(endedAt - startedAt, 0) }
  }

  // ----- Per-event readings -------------------------------------------------

  /** The reported dwell; one too long for `i64` is read as half an hour. */
  function DwellSeconds(reported: nat): nat {
    if reported <= 0x7fff_ffff_ffff_ffff then reported else 1800
  }

  predicate IsConfidentEvent(e: Event) {
    e.status == "classified" && (e.confidence == "high" || e.confidence == "medium")
  }

  function SafeCategory(e: Event): string {
    if IsConfidentEvent(e) then Upper(e.category) else "UNCLASSIFIED"
  }

  function ParseConfidence(text: string): Confidence {
    if text == "high" then High
    else if text == "medium" then Medium
    else if text == "low" then Low
    else Unknown
  }

  function Rank(c: Confidence): nat {
    match c
    case Unknown => 0
    case Low => 1
    case Medium => 2
    case High => 3
  }

  function WeakerConfidence(left: Confidence, right: Confidence): (weaker: Confidence)
    ensures Rank(weaker) == Min(Rank(left), Rank(right))
  {
    if Rank(left) <= Rank(right) then left else right
  }

  // ----- Time order ---------------------------------------------------------

  predicate NotLater(a: Event, b: Event) { a.occurredAt <= b.occurredAt }

  ghost predicate InTimeOrder(events: seq<Event>) {
    forall i, j :: 0 <= i <= j < |events| ==> events[i].occurredAt <= events[j].occurredAt
  }

  /** `sort_by_key(occurred_at)`. */
  function SortByTime(events: seq<Event>): (sorted: seq<Event>)
    ensures InTimeOrder(sorted)
    ensures |sorted| == |events|
    ensures InTimeOrder(events) ==> sorted == events
  {
    SortBySorted(events, NotLater);
    assert InTimeOrder(events) ==> SortBy(events, NotLater) == events by {
      if InTimeOrder(events) { SortBySortedInput(events, NotLater); }
    }
    SortBy(events, NotLater)
  }

  /** Sorting only rearranges, and events of one second keep their order. */
  lemma {:induction false} SortByTimeIsStable(events: seq<Event>, at: int)
    ensures multiset(SortByTime(events)) == multiset(events)
    ensures Filter(SortByTime(events), (e: Event) => e.occurredAt == at) ==
            Filter(events, (e: Event) => e.occurredAt == at)
  {
    var p := (e: Event) => e.occurredAt == at;
    SortPermutes(events, NotLater);
    SortFiltered(events, NotLater, p);
    var kept := Filter(events, p);
    forall i | 0 <= i < |kept| ensures kept[i].occurredAt == at {
      FilterMembers(events, p, kept[i]);
    }
    SortBySortedInput(kept, NotLater);
  }

  // ----- What is on screen at a second --------------------------------------

  /** How many of the first `n` events have begun by second `s`, in time order. */
  function BegunAmong(events: seq<Event>, s: int, n: nat): (m: nat)
    requires n <= |events|
    ensures m <= n
    ensures m > 0 ==> events[m - 1].occurredAt <= s
    ensures forall i :: m <= i < n ==> s < events[i].occurredAt
  {
    if n == 0 then 0 else if events[n - 1].occurredAt <= s then n else BegunAmong(events, s, n - 1)
  }

  /** How many events have begun by second `s`. */
  function BegunBy(events: seq<Event>, s: int): nat {
    BegunAmong(events, s, |events|)
  }

  predicate StillOn(e: Event, s: int) {
    e.durationSeconds > 0 ==> s < e.occurredAt + DwellSeconds(e.durationSeconds)
  }

  /** The event on screen at second `s`: the latest to have begun, unless its reported dwell is over. */
  function Shown(events: seq<Event>, s: int): Option<Event> {
    var n := BegunBy(events, s);
    if n > 0 && StillOn(events[n - 1], s) then Some(events[n - 1]) else None
  }

  /** The latest event to have begun is determined by position alone. */
  lemma BegunByAt(events: seq<Event>, s: int, n: nat)
    requires InTimeOrder(events) && n <= |events|
    requires n > 0 ==> events[n - 1].occurredAt <= s
    requires n < |events| ==> s < events[n].occurredAt
    ensures BegunBy(events, s) == n
  {
  }

  // ----- Measured spans -----------------------------------------------------

  function NextAt(events: seq<Event>, index: nat, windowEnd: int): int {
    if index + 1 < |events| then events[index + 1].occurredAt else windowEnd
  }

  /** The part of `[windowStart, windowEnd)` that event `index` of a time-ordered list was on screen. */
  function MeasuredSpan(events: seq<Event>, index: nat, windowStart: int, windowEnd: int): Option<Span> {
    if index >= |events| then None
    else
      var event := events[index];
      var startedAt := Max(event.occurredAt, windowStart);
      var nextAt := NextAt(events, index, windowEnd);
      var measuredEnd :=
        if event.durationSeconds > 0
        then event.occurredAt + DwellSeconds(event.durationSeconds)
        else nextAt;
      var endedAt := Min(Min(measuredEnd, nextAt), windowEnd);
      if endedAt > startedAt then Some(Span(startedAt, endedAt)) else None
  }

  predicate SpanCovers(events: seq<Event>, index: nat, windowStart: int, windowEnd: int, s: int) {
    var span := MeasuredSpan(events, index, windowStart, windowEnd);
    span.Some? && span.value.Covers(s)
  }

  /** A span covers exactly the window seconds at which its event is the one on screen. */
  lemma SpanIsShown(events: seq<Event>, index: nat, windowStart: int, windowEnd: int, s: int)
    requires InTimeOrder(events) && index < |events|
    ensures SpanCovers(events, index, windowStart, windowEnd, s) <==>
            (windowStart <= s < windowEnd && BegunBy(events, s) == index + 1 && Shown(events, s).Some?)
  {
    if SpanCovers(events, index, windowStart, windowEnd, s) {
      BegunByAt(events, s, index + 1);
    }
  }

  /** No second belongs to two events. */
  lemma SpansDisjoint(events: seq<Event>, i: nat, j: nat, windowStart: int, windowEnd: int, s: int)
    requires InTimeOrder(events) && i < |events| && j < |events|
    requires SpanCovers(events, i, windowStart, windowEnd, s)
    requires SpanCovers(events, j, windowStart, windowEnd, s)
    ensures i == j
  {
    SpanIsShown(events, i, windowStart, windowEnd, s);
    SpanIsShown(events, j, windowStart, windowEnd, s);
  }

  // ----- Segments -----------------------------------------------------------

  /** One step of the merge: extend the last segment, or open a new one. */
  function AddSpan(segments: seq<Segment>, event: Event, span: Span): seq<Segment> {
    var category := SafeCategory(event);
    var confidence := ParseConfidence(event.confidence);
    var n := |segments|;
    if n > 0 && segments[n - 1].category == category && segments[n - 1].endedAt >= span.start then
      var previous := segments[n - 1];
      segments[n - 1 := previous.(
        endedAt := Max(previous.endedAt, span.end),
        confidence := WeakerConfidence(previous.confidence, confidence))]
    else
      segments + [Segment(span.start, span.end, category, confidence)]
  }

  /** The segments once event `n` of a time-ordered list is measured. */
  function StepSegments(prior: seq<Segment>, events: seq<Event>, windowStart: int, windowEnd: int, n: nat): seq<Segment>
    requires n < |events|
  {
    match MeasuredSpan(events, n, windowStart, windowEnd)
    case None => prior
    case Some(span) => AddSpan(prior, events[n], span)
  }

  /** The segments after the first `n` events of a time-ordered list. */
  function SegmentsAfter(events: seq<Event>, windowStart: int, windowEnd: int, n: nat): seq<Segment>
    requires n <= |events|
  {
    if n == 0 then []
    else StepSegments(SegmentsAfter(events, windowStart, windowEnd, n - 1), events, windowStart, windowEnd, n - 1)
  }

  /** The value of `build_segments`. */
  function Segments(events: seq<Event>, windowStart: int, windowEnd: int): seq<Segment> {
    var sorted := SortByTime(events);
    SegmentsAfter(sorted, windowStart, windowEnd, |sorted|)
  }

  method BuildSegments(events: seq<Event>, windowStart: int, windowEnd: int) returns (segments: seq<Segment>)
    ensures segments == Segments(events, windowStart, windowEnd)
  {
    var sorted := SortByTime(events);
    segments := [];
    for index := 0 to |sorted|
      invariant segments == SegmentsAfter(sorted, windowStart, windowEnd, index)
    {
      var measured := MeasuredSpan(sorted, index, windowStart, windowEnd);
      if measured.None? {
        continue;
      }
      var span := measured.value;
      var category := SafeCategory(sorted[index]);
      var confidence := ParseConfidence(sorted[index].confidence);
      if |segments| > 0 {
        var previous := segments[|segments| - 1];
        if previous.category == category && previous.endedAt >= span.start {
          segments := segments[|segments| - 1 := previous.(
            endedAt := Max(previous.endedAt, span.end),
            confidence := WeakerConfidence(previous.confidence, confidence))];
          continue;
        }
      }
      segments := segments + [Segment(span.start, span.end, category, confidence)];
    }
  }

  // ----- The shape of a segment list ----------------------------------------

  /** `right` may follow `left`: no overlap, and a seam with no gap is a change of category. */
  predicate Follows(left: Segment, right: Segment) {
    && left.endedAt <= right.startedAt
    && (left.endedAt == right.startedAt ==> left.category != right.category)
  }

  /** Non-empty segments inside the window, each following the one before. */
  predicate Tidy(segments: seq<Segment>, windowStart: int, windowEnd: int) {
    segments != [] ==>
      var init, last := segments[..|segments| - 1], segments[|segments| - 1];
      && Tidy(init, windowStart, windowEnd)
      && windowStart <= last.startedAt < last.endedAt <= windowEnd
      && (init != [] ==> Follows(init[|init| - 1], last))
  }

  /** What a tidy list looks like, index by index. */
  ghost predicate InOrderAndMaximal(segments: seq<Segment>, windowStart: int, windowEnd: int) {
    && (forall k :: 0 <= k < |segments| ==>
          windowStart <= segments[k].startedAt < segments[k].endedAt <= windowEnd)
    && (forall j, k :: 0 <= j < k < |segments| ==> Follows(segments[j], segments[k]) || j + 1 < k)
    && (forall j, k :: 0 <= j < k < |segments| ==> segments[j].endedAt <= segments[k].startedAt)
  }

  lemma InOrderSnoc(init: seq<Segment>, last: Segment, windowStart: int, windowEnd: int)
    requires InOrderAndMaximal(init, windowStart, windowEnd)
    requires windowStart <= last.startedAt < last.endedAt <= windowEnd
    requires init != [] ==> Follows(init[|init| - 1], last)
    ensures InOrderAndMaximal(init + [last], windowStart, windowEnd)
  {
    var all := init + [last];
    forall j | 0 <= j < |init| ensures init[j].endedAt <= last.startedAt {
      assert j == |init| - 1 || init[j].endedAt <= init[|init| - 1].startedAt;
    }
    assert forall k :: 0 <= k < |init| ==> all[k] == init[k];
  }

  lemma {:induction false} TidyInOrder(segments: seq<Segment>, windowStart: int, windowEnd: int)
    requires Tidy(segments, windowStart, windowEnd)
    ensures InOrderAndMaximal(segments, windowStart, windowEnd)
  {
    if segments != [] {
      var init, last := segments[..|segments| - 1], segments[|segments| - 1];
      TidyInOrder(init, windowStart, windowEnd);
      InOrderSnoc(init, last, windowStart, windowEnd);
      assert segments == init + [last];
    }
  }

  predicate EndsBy(segments: seq<Segment>, bound: int) {
    segments != [] ==> segments[|segments| - 1].endedAt <= bound
  }

  lemma {:induction false} TidySnoc(segments: seq<Segment>, last: Segment, lo: int, hi: int)
    requires Tidy(segments, lo, hi) && lo <= last.startedAt < last.endedAt <= hi
    requires segments != [] ==> Follows(segments[|segments| - 1], last)
    ensures Tidy(segments + [last], lo, hi)
  {
    assert (segments + [last])[..|segments|] == segments;
  }

  /** The last segment of a tidy list may end later. */
  lemma {:induction false} LastMayGrow(segments: seq<Segment>, lo: int, hi: int, grown: Segment)
    requires Tidy(segments, lo, hi) && segments != []
    requires grown.startedAt == segments[|segments| - 1].startedAt < grown.endedAt <= hi
    requires grown.category == segments[|segments| - 1].category
    ensures Tidy(segments[|segments| - 1 := grown], lo, hi)
  {
    var init := segments[..|segments| - 1];
    assert segments[|segments| - 1 := grown] == init + [grown];
    TidySnoc(init, grown, lo, hi);
  }

  lemma {:induction false} AddSpanTidy(
    segments: seq<Segment>, event: Event, span: Span, windowStart: int, windowEnd: int)
    requires Tidy(segments, windowStart, windowEnd)
    requires windowStart <= span.start < span.end <= windowEnd
    requires EndsBy(segments, span.start)
    ensures Tidy(AddSpan(segments, event, span), windowStart, windowEnd)
    ensures EndsBy(AddSpan(segments, event, span), span.end)
  {
    var r := AddSpan(segments, event, span);
    var last := r[|r| - 1];
    if |r| == |segments| {
      LastMayGrow(segments, windowStart, windowEnd, last);
    } else {
      TidySnoc(segments, last, windowStart, windowEnd);
    }
  }

  /** One event more keeps a list tidy, and ending by the next event. */
  lemma {:induction false} StepTidy(
    events: seq<Event>, windowStart: int, windowEnd: int, n: nat, prior: seq<Segment>, next: seq<Segment>)
    requires InTimeOrder(events) && n < |events|
    requires Tidy(prior, windowStart, windowEnd) && EndsBy(prior, events[n].occurredAt)
    requires next == StepSegments(prior, events, windowStart, windowEnd, n)
    ensures Tidy(next, windowStart, windowEnd) && (n + 1 < |events| ==> EndsBy(next, events[n + 1].occurredAt))
  {
    var measured := MeasuredSpan(events, n, windowStart, windowEnd);
    if measured.Some? {
      AddSpanTidy(prior, events[n], measured.value, windowStart, windowEnd);
    }
  }

  lemma {:induction false} SegmentsAfterTidy(
    events: seq<Event>, windowStart: int, windowEnd: int, n: nat, segments: seq<Segment>)
    requires InTimeOrder(events) && n <= |events| && segments == SegmentsAfter(events, windowStart, windowEnd, n)
    ensures Tidy(segments, windowStart, windowEnd)
    ensures n < |events| ==> EndsBy(segments, events[n].occurredAt)
  {
    if n > 0 {
      var prior := SegmentsAfter(events, windowStart, windowEnd, n - 1);
      SegmentsAfterTidy(events, windowStart, windowEnd, n - 1, prior);
      StepTidy(events, windowStart, windowEnd, n - 1, prior, segments);
    }
  }

  // ----- What a segment list denotes ----------------------------------------

  /** The segment covering second `s`. */
  function SegmentAt(segments: seq<Segment>, s: int): (r: Option<Segment>)
    ensures r.Some? ==> r.value in segments && r.value.Covers(s)
    ensures r.None? ==> forall k :: 0 <= k < |segments| ==> !segments[k].Covers(s)
  {
    if segments == [] then None
    else if segments[|segments| - 1].Covers(s) then Some(segments[|segments| - 1])
    else SegmentAt(segments[..|segments| - 1], s)
  }

  function CategoryAt(segments: seq<Segment>, s: int): Option<string> {
    var found := SegmentAt(segments, s);
    if found.Some? then Some(found.value.category) else None
  }

  /** What the window shows at second `s`, read off the events alone. */
  function ShownCategory(events: seq<Event>, windowStart: int, windowEnd: int, s: int): Option<string> {
    var shown := Shown(events, s);
    if windowStart <= s < windowEnd && shown.Some? then Some(SafeCategory(shown.value)) else None
  }

  lemma {:induction false} SegmentAtSnoc(segments: seq<Segment>, last: Segment, s: int)
    ensures SegmentAt(segments + [last], s) == if last.Covers(s) then Some(last) else SegmentAt(segments, s)
  {
    assert (segments + [last])[..|segments|] == segments;
  }

  lemma CategoryAtSnoc(segments: seq<Segment>, last: Segment, s: int)
    ensures CategoryAt(segments + [last], s) == if last.Covers(s) then Some(last.category) else CategoryAt(segments, s)
  {
    SegmentAtSnoc(segments, last, s);
  }

  lemma AddSpanAt(segments: seq<Segment>, event: Event, span: Span, s: int)
    requires span.start < span.end
    requires segments != [] ==> segments[|segments| - 1].endedAt <= span.start
    requires segments != [] ==> segments[|segments| - 1].startedAt < segments[|segments| - 1].endedAt
    ensures CategoryAt(AddSpan(segments, event, span), s) ==
            if span.Covers(s) then Some(SafeCategory(event)) else CategoryAt(segments, s)
  {
    var r := AddSpan(segments, event, span);
    if |r| == |segments| {
      var init, previous, merged := segments[..|segments| - 1], segments[|segments| - 1], r[|r| - 1];
      assert segments == init + [previous] && r == init + [merged];
      CategoryAtSnoc(init, previous, s);
      CategoryAtSnoc(init, merged, s);
    } else {
      CategoryAtSnoc(segments, r[|r| - 1], s);
    }
  }

  lemma {:induction false} StepAt(
    prior: seq<Segment>, events: seq<Event>, windowStart: int, windowEnd: int, n: nat, s: int)
    requires n < |events| && Tidy(prior, windowStart, windowEnd) && EndsBy(prior, events[n].occurredAt)
    ensures CategoryAt(StepSegments(prior, events, windowStart, windowEnd, n), s) ==
            if SpanCovers(events, n, windowStart, windowEnd, s)
            then Some(SafeCategory(events[n]))
            else CategoryAt(prior, s)
  {
    var measured := MeasuredSpan(events, n, windowStart, windowEnd);
    if measured.Some? {
      AddSpanAt(prior, events[n], measured.value, s);
    }
  }

  function ShownUpTo(events: seq<Event>, windowStart: int, windowEnd: int, n: nat, s: int): Option<string> {
    if BegunBy(events, s) <= n then ShownCategory(events, windowStart, windowEnd, s) else None
  }

  lemma ShownUpToStep(events: seq<Event>, windowStart: int, windowEnd: int, n: nat, s: int)
    requires InTimeOrder(events) && n < |events|
    ensures ShownUpTo(events, windowStart, windowEnd, n + 1, s) ==
            if SpanCovers(events, n, windowStart, windowEnd, s)
            then Some(SafeCategory(events[n]))
            else ShownUpTo(events, windowStart, windowEnd, n, s)
  {
    SpanIsShown(events, n, windowStart, windowEnd, s);
  }

  lemma NextAgrees(events: seq<Event>, windowStart: int, windowEnd: int, n: nat, s: int,
                   prior: seq<Segment>, next: seq<Segment>)
    requires InTimeOrder(events) && n < |events|
    requires prior == SegmentsAfter(events, windowStart, windowEnd, n)
    requires next == StepSegments(prior, events, windowStart, windowEnd, n)
    requires CategoryAt(prior, s) == ShownUpTo(events, windowStart, windowEnd, n, s)
    ensures CategoryAt(next, s) == ShownUpTo(events, windowStart, windowEnd, n + 1, s)
  {
    SegmentsAfterTidy(events, windowStart, windowEnd, n, prior);
    StepAt(prior, events, windowStart, windowEnd, n, s);
    ShownUpToStep(events, windowStart, windowEnd, n, s);
  }

  lemma {:induction false} SegmentsAfterAt(
    events: seq<Event>, windowStart: int, windowEnd: int, n: nat, s: int, segments: seq<Segment>)
    requires InTimeOrder(events) && n <= |events| && segments == SegmentsAfter(events, windowStart, windowEnd, n)
    ensures CategoryAt(segments, s) == ShownUpTo(events, windowStart, windowEnd, n, s)
  {
    if n > 0 {
      var prior := SegmentsAfter(events, windowStart, windowEnd, n - 1);
      SegmentsAfterAt(events, windowStart, windowEnd, n - 1, s, prior);
      NextAgrees(events, windowStart, windowEnd, n - 1, s, prior, segments);
    }
  }

  lemma {:induction false} SegmentsDenote(events: seq<Event>, windowStart: int, windowEnd: int)
    ensures Tidy(Segments(events, windowStart, windowEnd), windowStart, windowEnd)
    ensures forall s :: CategoryAt(Segments(events, windowStart, windowEnd), s) ==
                        ShownCategory(SortByTime(events), windowStart, windowEnd, s)
  {
    var sorted, segments := SortByTime(events), Segments(events, windowStart, windowEnd);
    SegmentsAfterTidy(sorted, windowStart, windowEnd, |sorted|, segments);
    forall s ensures CategoryAt(segments, s) == ShownCategory(sorted, windowStart, windowEnd, s) {
      SegmentsAfterAt(sorted, windowStart, windowEnd, |sorted|, s, segments);
    }
  }

  // ----- Confidence of a segment --------------------------------------------

  /** The event shown at `s` is at least as confident as `c`. */
  predicate AtLeast(events: seq<Event>, s: int, c: Confidence) {
    Shown(events, s).Some? && Rank(c) <= Rank(ParseConfidence(Shown(events, s).value.confidence))
  }

  predicate Exactly(events: seq<Event>, s: int, c: Confidence) {
    Shown(events, s).Some? && c == ParseConfidence(Shown(events, s).value.confidence)
  }

  /** The segment's confidence is the weakest among the events on screen during it. */
  ghost predicate WeakestShown(events: seq<Event>, segment: Segment) {
    && (forall s :: segment.Covers(s) ==> AtLeast(events, s, segment.confidence))
    && (exists s :: segment.Covers(s) && Exactly(events, s, segment.confidence))
  }

  ghost predicate AllWeakest(events: seq<Event>, segments: seq<Segment>) {
    forall k :: 0 <= k < |segments| ==> WeakestShown(events, segments[k])
  }

  lemma AddSpanWeakest(events: seq<Event>, segments: seq<Segment>, event: Event, span: Span)
    requires AllWeakest(events, segments) && EndsBy(segments, span.start) && span.start < span.end
    requires forall s :: span.Covers(s) ==> Exactly(events, s, ParseConfidence(event.confidence))
    ensures AllWeakest(events, AddSpan(segments, event, span))
  {
    var confidence := ParseConfidence(event.confidence);
    var r := AddSpan(segments, event, span);
    var last := r[|r| - 1];
    if |r| == |segments| {
      MergedWeakest(events, segments[|segments| - 1], span, confidence, last);
    } else {
      assert span.Covers(span.start);
      assert last.Covers(span.start) && Exactly(events, span.start, confidence);
      forall s | last.Covers(s) ensures AtLeast(events, s, confidence) {
        assert span.Covers(s);
      }
    }
    forall k | 0 <= k < |r| ensures WeakestShown(events, r[k]) {
      assert k < |r| - 1 ==> r[k] == segments[k];
    }
  }

  lemma MergedWeakest(
    events: seq<Event>, previous: Segment, span: Span, confidence: Confidence, merged: Segment)
    requires WeakestShown(events, previous) && previous.endedAt == span.start < span.end
    requires forall s :: span.Covers(s) ==> Exactly(events, s, confidence)
    requires merged.startedAt == previous.startedAt && merged.endedAt == span.end
    requires merged.confidence == WeakerConfidence(previous.confidence, confidence)
    ensures WeakestShown(events, merged)
  {
    forall s | merged.Covers(s) ensures AtLeast(events, s, merged.confidence) {
      assert previous.Covers(s) || span.Covers(s);
    }
    var w :| previous.Covers(w) && Exactly(events, w, previous.confidence);
    var v := if merged.confidence == previous.confidence then w else span.start;
    assert span.Covers(span.start);
    assert merged.Covers(v) && Exactly(events, v, merged.confidence);
  }

  lemma SpanShowsExactly(events: seq<Event>, index: nat, windowStart: int, windowEnd: int, span: Span)
    requires InTimeOrder(events) && index < |events|
    requires MeasuredSpan(events, index, windowStart, windowEnd) == Some(span)
    ensures forall s :: span.Covers(s) ==> Exactly(events, s, ParseConfidence(events[index].confidence))
  {
    forall s | span.Covers(s) ensures Exactly(events, s, ParseConfidence(events[index].confidence)) {
      SpanIsShown(events, index, windowStart, windowEnd, s);
    }
  }

  lemma {:induction false} SegmentsAfterWeakest(events: seq<Event>, windowStart: int, windowEnd: int, n: nat)
    requires InTimeOrder(events) && n <= |events|
    ensures AllWeakest(events, SegmentsAfter(events, windowStart, windowEnd, n))
  {
    if n > 0 {
      var prior := SegmentsAfter(events, windowStart, windowEnd, n - 1);
      SegmentsAfterWeakest(events, windowStart, windowEnd, n - 1);
      SegmentsAfterTidy(events, windowStart, windowEnd, n - 1, prior);
      var measured := MeasuredSpan(events, n - 1, windowStart, windowEnd);
      if measured.Some? {
        SpanShowsExactly(events, n - 1, windowStart, windowEnd, measured.value);
        AddSpanWeakest(events, prior, events[n - 1], measured.value);
      }
    }
  }

  /** Main result: at every second, a segment of category `c` covers it exactly when the event on
      screen has safe category `c`; the segments are in order, disjoint, inside the window and
      maximal; and each carries the weakest confidence shown during it. */
  lemma SegmentsDenoteEvents(events: seq<Event>, windowStart: int, windowEnd: int)
    ensures InOrderAndMaximal(Segments(events, windowStart, windowEnd), windowStart, windowEnd)
    ensures forall s :: CategoryAt(Segments(events, windowStart, windowEnd), s) ==
                        ShownCategory(SortByTime(events), windowStart, windowEnd, s)
    ensures AllWeakest(SortByTime(events), Segments(events, windowStart, windowEnd))
  {
    SegmentsDenote(events, windowStart, windowEnd);
    TidyInOrder(Segments(events, windowStart, windowEnd), windowStart, windowEnd);
    SegmentsAfterWeakest(SortByTime(events), windowStart, windowEnd, |events|);
  }

  // ----- A tidy list is determined by what it denotes -----------------------

  predicate SameShape(a: seq<Segment>, b: seq<Segment>) {
    && |a| == |b|
    && forall k :: 0 <= k < |a| ==>
         a[k].startedAt == b[k].startedAt && a[k].endedAt == b[k].endedAt && a[k].category == b[k].category
  }

  lemma {:induction false} TidyCoversEarly(a: seq<Segment>, lo: int, hi: int, s: int)
    requires Tidy(a, lo, hi) && SegmentAt(a, s).Some?
    ensures s < a[|a| - 1].endedAt
    ensures s == a[|a| - 1].endedAt - 1 ==> SegmentAt(a, s).value == a[|a| - 1]
  {
    if !a[|a| - 1].Covers(s) {
      TidyCoversEarly(a[..|a| - 1], lo, hi, s);
    }
  }

  lemma {:induction false} TidyInit(a: seq<Segment>, lo: int, hi: int, s: int)
    requires Tidy(a, lo, hi) && a != []
    ensures CategoryAt(a[..|a| - 1], s) == if s < a[|a| - 1].startedAt then CategoryAt(a, s) else None
  {
    var init := a[..|a| - 1];
    if SegmentAt(init, s).Some? {
      TidyCoversEarly(init, lo, hi, s);
    }
  }

  lemma {:induction false} TidyLast(a: seq<Segment>, lo: int, hi: int, s: int)
    requires Tidy(a, lo, hi) && a != []
    ensures var last := a[|a| - 1];
      && (s >= last.endedAt ==> CategoryAt(a, s) == None)
      && (last.Covers(s) ==> CategoryAt(a, s) == Some(last.category))
      && (s == last.startedAt - 1 ==> CategoryAt(a, s) != Some(last.category))
  {
    var init := a[..|a| - 1];
    if SegmentAt(init, s).Some? {
      TidyCoversEarly(init, lo, hi, s);
    }
  }

  ghost predicate SameMeaning(a: seq<Segment>, b: seq<Segment>) {
    forall s :: CategoryAt(a, s) == CategoryAt(b, s)
  }

  /** Of two tidy lists that agree, neither last segment can reach further than the other. */
  lemma {:induction false} TidyLastBounds(a: seq<Segment>, b: seq<Segment>, lo: int, hi: int)
    requires Tidy(a, lo, hi) && Tidy(b, lo, hi) && SameMeaning(a, b) && a != []
    ensures b != []
    ensures a[|a| - 1].endedAt <= b[|b| - 1].endedAt
    ensures a[|a| - 1].endedAt == b[|b| - 1].endedAt ==>
              a[|a| - 1].category == b[|b| - 1].category && a[|a| - 1].startedAt >= b[|b| - 1].startedAt
  {
    var x := a[|a| - 1];
    TidyLast(a, lo, hi, x.endedAt - 1);
    assert CategoryAt(b, x.endedAt - 1) == Some(x.category);
    var y := b[|b| - 1];
    TidyLast(b, lo, hi, x.endedAt - 1);
    TidyLast(a, lo, hi, y.startedAt - 1);
    TidyLast(b, lo, hi, y.startedAt - 1);
  }

  lemma {:induction false} TidyInits(a: seq<Segment>, b: seq<Segment>, lo: int, hi: int)
    requires Tidy(a, lo, hi) && Tidy(b, lo, hi) && SameMeaning(a, b)
    requires a != [] && b != [] && a[|a| - 1].startedAt == b[|b| - 1].startedAt
    ensures SameMeaning(a[..|a| - 1], b[..|b| - 1])
  {
    var aInit, bInit := a[..|a| - 1], b[..|b| - 1];
    forall s ensures CategoryAt(aInit, s) == CategoryAt(bInit, s) {
      TidyInit(a, lo, hi, s);
      TidyInit(b, lo, hi, s);
    }
  }

  /** Two tidy lists that agree at every second have the same boundaries and categories. */
  lemma {:induction false} TidyIsCanonical(a: seq<Segment>, b: seq<Segment>, lo: int, hi: int)
    requires Tidy(a, lo, hi) && Tidy(b, lo, hi) && SameMeaning(a, b)
    ensures SameShape(a, b)
  {
    if a != [] {
      TidyLastBounds(a, b, lo, hi);
      TidyLastBounds(b, a, lo, hi);
      TidyInits(a, b, lo, hi);
      TidyIsCanonical(a[..|a| - 1], b[..|b| - 1], lo, hi);
    } else if b != [] {
      TidyLastBounds(b, a, lo, hi);
    }
  }

  // ----- Restricting a segment list to a window -----------------------------

  function Clip(segments: seq<Segment>, lo: int, hi: int): seq<Segment> {
    if segments == [] then []
    else
      var last := segments[|segments| - 1];
      var from, to := Max(last.startedAt, lo), Min(last.endedAt, hi);
      Clip(segments[..|segments| - 1], lo, hi) +
      (if from < to then [last.(startedAt := from, endedAt := to)] else [])
  }

  lemma {:induction false} ClipAt(segments: seq<Segment>, lo: int, hi: int, s: int)
    ensures CategoryAt(Clip(segments, lo, hi), s) == if lo <= s < hi then CategoryAt(segments, s) else None
  {
    if segments != [] {
      var init, last := segments[..|segments| - 1], segments[|segments| - 1];
      assert segments == init + [last];
      SegmentAtSnoc(init, last, s);
      ClipAt(init, lo, hi, s);
      var from, to := Max(last.startedAt, lo), Min(last.endedAt, hi);
      if from < to {
        SegmentAtSnoc(Clip(init, lo, hi), last.(startedAt := from, endedAt := to), s);
      } else {
        assert Clip(segments, lo, hi) == Clip(init, lo, hi);
      }
    }
  }

  /** A clipped list ends no later than the list it came from, and in the same category if there. */
  predicate EndsWithin(c: seq<Segment>, segments: seq<Segment>) {
    c != [] ==>
      && segments != []
      && c[|c| - 1].endedAt <= segments[|segments| - 1].endedAt
      && (c[|c| - 1].endedAt == segments[|segments| - 1].endedAt ==>
            c[|c| - 1].category == segments[|segments| - 1].category)
  }

  lemma {:induction false} ClipTidy(segments: seq<Segment>, windowStart: int, windowEnd: int, lo: int, hi: int)
    requires Tidy(segments, windowStart, windowEnd)
    ensures Tidy(Clip(segments, lo, hi), lo, hi)
    ensures EndsWithin(Clip(segments, lo, hi), segments)
  {
    if segments != [] {
      var init, last := segments[..|segments| - 1], segments[|segments| - 1];
      var c := Clip(init, lo, hi);
      ClipTidy(init, windowStart, windowEnd, lo, hi);
      var from, to := Max(last.startedAt, lo), Min(last.endedAt, hi);
      if from < to {
        TidySnoc(c, last.(startedAt := from, endedAt := to), lo, hi);
      } else {
        assert Clip(segments, lo, hi) == c;
      }
    }
  }

  // ----- Adding up seconds --------------------------------------------------

  /** The seconds of the segments whose category satisfies `p`. */
  function SecondsWhere(segments: seq<Segment>, p: string -> bool): nat {
    if segments == [] then 0
    else
      var last := segments[|segments| - 1];
      SecondsWhere(segments[..|segments| - 1], p) + (if p(last.category) then last.Seconds() else 0)
  }

  predicate Holds(category: Option<string>, p: string -> bool) {
    category.Some? && p(category.value)
  }

  function CoveredWhere(segments: seq<Segment>, p: string -> bool): int -> bool {
    s => Holds(CategoryAt(segments, s), p)
  }

  function WindowWhere(events: seq<Event>, windowStart: int, windowEnd: int, p: string -> bool): int -> bool {
    s => Holds(ShownCategory(events, windowStart, windowEnd, s), p)
  }

  /** Adding up segment lengths counts the seconds they cover. */
  lemma {:induction false} SecondsWhereCounts(segments: seq<Segment>, lo: int, hi: int, p: string -> bool)
    requires Tidy(segments, lo, hi)
    ensures SecondsWhere(segments, p) == Count(CoveredWhere(segments, p), lo, hi)
  {
    var whole := CoveredWhere(segments, p);
    if segments == [] {
      if lo <= hi { CountConstant(whole, lo, hi, false); }
    } else {
      var init, last := segments[..|segments| - 1], segments[|segments| - 1];
      SecondsWhereCounts(init, lo, hi, p);
      var before := CoveredWhere(init, p);
      CountSplit(whole, lo, last.startedAt, hi);
      CountSplit(whole, last.startedAt, last.endedAt, hi);
      CountSplit(before, lo, last.startedAt, hi);
      forall s ensures before(s) == (s < last.startedAt && whole(s))
               ensures last.Covers(s) ==> whole(s) == p(last.category)
               ensures s >= last.endedAt ==> !whole(s)
      {
        TidyInit(segments, lo, hi, s);
        TidyLast(segments, lo, hi, s);
      }
      CountSame(whole, before, lo, last.startedAt);
      CountConstant(whole, last.startedAt, last.endedAt, p(last.category));
      CountConstant(whole, last.endedAt, hi, false);
      CountConstant(before, last.startedAt, hi, false);
    }
  }

  /** The seconds a window's segments give to categories satisfying `p`, read off the events. */
  lemma {:induction false} SegmentSecondsAreShown(
    events: seq<Event>, windowStart: int, windowEnd: int, p: string -> bool)
    ensures SecondsWhere(Segments(events, windowStart, windowEnd), p) ==
            Count(WindowWhere(SortByTime(events), windowStart, windowEnd, p), windowStart, windowEnd)
  {
    SegmentsDenote(events, windowStart, windowEnd);
    var segments, sorted := Segments(events, windowStart, windowEnd), SortByTime(events);
    SecondsWhereCounts(segments, windowStart, windowEnd, p);
    CountSame(CoveredWhere(segments, p),
              WindowWhere(sorted, windowStart, windowEnd, p), windowStart, windowEnd);
  }

  // ----- The reported fields, in the timeline's own terms -------------------

  /** Event `i` of a time-ordered list is the latest to have begun by second `s`. */
  predicate IsLatest(events: seq<Event>, i: nat, s: int) {
    i < |events| && events[i].occurredAt <= s && (i + 1 < |events| ==> s < events[i + 1].occurredAt)
  }

  /** The latest event to have begun is on screen for its reported dwell, or with none reported until the next;
      a dwell too long for 63 bits counts as half an hour. */
  lemma LatestIsShown(events: seq<Event>, i: nat, s: int)
    requires InTimeOrder(events) && IsLatest(events, i, s)
    ensures var e := events[i];
      && (e.durationSeconds == 0 ==> Shown(events, s) == Some(e))
      && (0 < e.durationSeconds < 0x8000_0000_0000_0000 ==>
            Shown(events, s) == if s < e.occurredAt + e.durationSeconds then Some(e) else None)
      && (0x8000_0000_0000_0000 <= e.durationSeconds ==>
            Shown(events, s) == if s < e.occurredAt + 1800 then Some(e) else None)
  {
    BegunByAt(events, s, i + 1);
  }

  lemma NothingBegun(events: seq<Event>, s: int)
    requires InTimeOrder(events) && (events == [] || s < events[0].occurredAt)
    ensures Shown(events, s) == None
  {
    BegunByAt(events, s, 0);
  }

  /** What a window shows at a second, from the fields of the latest event to have begun: its category in upper
      case if it is classified with high or medium confidence, UNCLASSIFIED otherwise, for as long as its dwell. */
  lemma SegmentsShowFields(events: seq<Event>, windowStart: int, windowEnd: int, i: nat, s: int)
    requires IsLatest(SortByTime(events), i, s)
    ensures var e := SortByTime(events)[i];
            var sure := e.status == "classified" && (e.confidence == "high" || e.confidence == "medium");
            var dwell := if e.durationSeconds < 0x8000_0000_0000_0000 then e.durationSeconds else 1800;
      CategoryAt(Segments(events, windowStart, windowEnd), s) ==
      if windowStart <= s < windowEnd && (e.durationSeconds == 0 || s < e.occurredAt + dwell)
      then Some(if sure then Upper(e.category) else "UNCLASSIFIED") else None
  {
    SegmentsDenote(events, windowStart, windowEnd);
    LatestIsShown(SortByTime(events), i, s);
  }

  /** Before the first event a window shows nothing. */
  lemma SegmentsStartEmpty(events: seq<Event>, windowStart: int, windowEnd: int, s: int)
    requires events == [] || s < SortByTime(events)[0].occurredAt
    ensures CategoryAt(Segments(events, windowStart, windowEnd), s) == None
  {
    SegmentsDenote(events, windowStart, windowEnd);
    NothingBegun(SortByTime(events), s);
  }

  /** The confidence text of the event on screen. */
  function ConfidenceShown(events: seq<Event>, s: int): string {
    if Shown(events, s).Some? then Shown(events, s).value.confidence else ""
  }

  /** A segment is high where every event shown during it says so, high or medium where every one says either,
      and of no confidence where some event says none of the three. */
  lemma SegmentConfidence(events: seq<Event>, windowStart: int, windowEnd: int, k: nat)
    requires k < |Segments(events, windowStart, windowEnd)|
    ensures var segment, sorted := Segments(events, windowStart, windowEnd)[k], SortByTime(events);
      && (segment.confidence == High <==>
            forall s :: segment.Covers(s) ==> ConfidenceShown(sorted, s) == "high")
      && (segment.confidence == High || segment.confidence == Medium <==>
            forall s :: segment.Covers(s) ==> ConfidenceShown(sorted, s) in ["high", "medium"])
      && (segment.confidence == Unknown <==>
            exists s :: segment.Covers(s) && ConfidenceShown(sorted, s) !in ["high", "medium", "low"])
  {
    var segment, sorted := Segments(events, windowStart, windowEnd)[k], SortByTime(events);
    SegmentsDenoteEvents(events, windowStart, windowEnd);
    assert WeakestShown(sorted, segment);
    var w :| segment.Covers(w) && Exactly(sorted, w, segment.confidence);
    ConfidenceOf(ConfidenceShown(sorted, w));
    forall s | segment.Covers(s) ensures Rank(segment.confidence) <= Rank(ParseConfidence(ConfidenceShown(sorted, s))) {
      assert AtLeast(sorted, s, segment.confidence);
    }
    forall s ensures
      var c := ParseConfidence(ConfidenceShown(sorted, s));
      && (Rank(c) >= 3 <==> ConfidenceShown(sorted, s) == "high")
      && (Rank(c) >= 2 <==> ConfidenceShown(sorted, s) in ["high", "medium"])
      && (Rank(c) >= 1 <==> ConfidenceShown(sorted, s) in ["high", "medium", "low"])
    {
      ConfidenceOf(ConfidenceShown(sorted, s));
    }
  }

  lemma ConfidenceOf(text: string)
    ensures var c := ParseConfidence(text);
      && (Rank(c) >= 3 <==> text == "high") && (Rank(c) >= 2 <==> text in ["high", "medium"])
      && (Rank(c) >= 1 <==> text in ["high", "medium", "low"])
      && (c == High <==> Rank(c) == 3) && (c == Medium <==> Rank(c) == 2) && (c == Unknown <==> Rank(c) == 0)
  {
  }
}
