/** One row of the Daily Activity chart: display buckets, the fold into `Other`, and percentages. */
module DayActivity {
  import opened Prelude
  import opened Sorting
  import opened Timeline
  import opened Percentages
  import Clusters

  const TINY_SEGMENT_SECONDS: nat := 30
  const MAX_DISPLAY_BUCKETS: nat := 12
  const MAX_DAILY_ACTIVITY_SEGMENTS: nat := MAX_DISPLAY_BUCKETS + 1
  const EARLY_SIGNAL_REQUIRED_SECONDS: nat := 60

  datatype Bucket = Bucket(
    name: string,
    representativeEventId: Option<string>,
    stableId: Option<string>,
    suggestedName: Option<string>,
    aliasConfirmed: bool,
    category: string,
    seconds: nat,
    confidence: Confidence)

  datatype Coverage = NoData | Partial | Good

  datatype DayState = NoEvidence | StillBuilding | LowConfidence | Ready

  datatype DayRow = DayRow(
    state: DayState,
    activeSeconds: nat,
    coverage: Coverage,
    buckets: seq<Bucket>,
    percentages: seq<nat>)

  // ----- Active time --------------------------------------------------------

  predicate IsSystem(category: string) { EqIgnoreCase(category, "SYSTEM") }

  function NotSystem(): string -> bool { (category: string) => !IsSystem(category) }

  function MeaningfulCategory(): string -> bool { (category: string) => Clusters.IsMeaningful(category) }

  function ActiveSeconds(segments: seq<Segment>): nat { SecondsWhere(segments, NotSystem()) }

  // ----- Seconds by event ---------------------------------------------------

  function SpanSeconds(events: seq<Event>, index: nat, start: int, end: int): nat {
    var span := MeasuredSpan(events, index, start, end);
    if span.Some? then span.value.Seconds() else 0
  }

  /** The measured seconds of the first `n` events that satisfy `q`. */
  function EventSeconds(events: seq<Event>, start: int, end: int, n: nat, q: Event -> bool): nat
    requires n <= |events|
  {
    if n == 0 then 0
    else EventSeconds(events, start, end, n - 1, q) +
         (if q(events[n - 1]) then SpanSeconds(events, n - 1, start, end) else 0)
  }

  function ShownTo(events: seq<Event>, start: int, end: int, n: nat, q: Event -> bool): int -> bool {
    s => start <= s < end && BegunBy(events, s) <= n && Shown(events, s).Some? && q(Shown(events, s).value)
  }

  function Inside(a: int, b: int): int -> bool { s => a <= s < b }

  lemma {:induction false} CountInside(a: int, b: int, lo: int, hi: int)
    requires lo <= a <= b <= hi
    ensures Count(Inside(a, b), lo, hi) == b - a
  {
    CountSplit(Inside(a, b), lo, a, hi);
    CountSplit(Inside(a, b), a, b, hi);
    CountConstant(Inside(a, b), lo, a, false);
    CountConstant(Inside(a, b), a, b, true);
    CountConstant(Inside(a, b), b, hi, false);
  }

  lemma {:induction false} ShownToStep(events: seq<Event>, start: int, end: int, n: nat, q: Event -> bool)
    requires InTimeOrder(events) && n < |events|
    ensures Count(ShownTo(events, start, end, n + 1, q), start, end) ==
            Count(ShownTo(events, start, end, n, q), start, end) +
            (if q(events[n]) then SpanSeconds(events, n, start, end) else 0)
  {
    var span := MeasuredSpan(events, n, start, end);
    var a, b := if span.Some? then span.value.start else start, if span.Some? then span.value.end else start;
    forall s | start <= s < end ensures
      ShownTo(events, start, end, n + 1, q)(s) ==
      (ShownTo(events, start, end, n, q)(s) || (Inside(a, b)(s) && q(events[n])))
      ensures !(ShownTo(events, start, end, n, q)(s) && Inside(a, b)(s))
    {
      SpanIsShown(events, n, start, end, s);
    }
    if start <= end {
      if q(events[n]) {
        CountInside(a, b, start, end);
        CountDisjoint(ShownTo(events, start, end, n + 1, q), ShownTo(events, start, end, n, q), Inside(a, b),
                      start, end);
      } else {
        CountSame(ShownTo(events, start, end, n + 1, q), ShownTo(events, start, end, n, q), start, end);
      }
    }
  }

  lemma {:induction false} EventSecondsAreShown(events: seq<Event>, start: int, end: int, n: nat, q: Event -> bool)
    requires InTimeOrder(events) && n <= |events|
    ensures EventSeconds(events, start, end, n, q) == Count(ShownTo(events, start, end, n, q), start, end)
  {
    if n == 0 {
      forall s ensures !ShownTo(events, start, end, 0, q)(s) {
        assert BegunBy(events, s) <= 0 ==> Shown(events, s) == None;
      }
      if start <= end { CountConstant(ShownTo(events, start, end, 0, q), start, end, false); }
    } else {
      EventSecondsAreShown(events, start, end, n - 1, q);
      ShownToStep(events, start, end, n - 1, q);
    }
  }

  // ----- Display buckets ----------------------------------------------------

  predicate Counted(e: Event) { !IsSystem(e.category) }

  predicate UnsureSystem(e: Event) { IsSystem(e.category) && !IsConfidentEvent(e) }

  function BucketCategory(e: Event): string {
    if IsConfidentEvent(e) then e.category else "UNCLASSIFIED"
  }

  predicate IsBlank(text: string) {
    forall i :: 0 <= i < |text| ==> IsWhitespace(text[i])
  }

  /** The bucket an event opens. `friendly` is the display form of a category. */
  function OpenBucket(e: Event, friendly: string -> string): Bucket {
    var category := BucketCategory(e);
    var name :=
      if !IsConfidentEvent(e) then "Unclassified"
      else if e.displayLabel.Some? && !IsBlank(e.displayLabel.value) then e.displayLabel.value
      else friendly(category);
    Bucket(name, Some(e.eventId), Some(e.stableId), e.nameSuggestion, e.source == "user_rule", category,
           0, ParseConfidence(e.confidence))
  }

  predicate Keyed(b: Bucket, e: Event) {
    b.stableId == Some(e.stableId) && b.category == BucketCategory(e)
  }

  /** The place of an event's bucket, or the end of the table. */
  function Place(table: seq<Bucket>, e: Event, from: nat): (k: nat)
    requires from <= |table|
    ensures from <= k <= |table|
    ensures k < |table| ==> Keyed(table[k], e)
    ensures forall j :: from <= j < k ==> !Keyed(table[j], e)
    decreases |table| - from
  {
    if from == |table| || Keyed(table[from], e) then from else Place(table, e, from + 1)
  }

  function Grow(b: Bucket, e: Event, seconds: nat): Bucket {
    b.(seconds := b.seconds + seconds, confidence := WeakerConfidence(b.confidence, ParseConfidence(e.confidence)))
  }

  function AddToBucket(table: seq<Bucket>, e: Event, seconds: nat, friendly: string -> string): seq<Bucket> {
    var k := Place(table, e, 0);
    if k < |table| then table[k := Grow(table[k], e, seconds)]
    else table + [Grow(OpenBucket(e, friendly), e, seconds)]
  }

  /** The table once event `n` of a time-ordered list is measured. */
  function StepTable(table: seq<Bucket>, e: Event, seconds: nat, friendly: string -> string): seq<Bucket> {
    if seconds == 0 || !Counted(e) then table else AddToBucket(table, e, seconds, friendly)
  }

  /** The bucket table after the first `n` events of a time-ordered list. Entries stand in order of first
      use; the map's own key order only breaks ties, in `Before`. */
  function BucketTable(events: seq<Event>, start: int, end: int, n: nat, friendly: string -> string): seq<Bucket>
    requires n <= |events|
  {
    if n == 0 then []
    else StepTable(BucketTable(events, start, end, n - 1, friendly), events[n - 1],
                   SpanSeconds(events, n - 1, start, end), friendly)
  }

  function BucketSeconds(): Bucket -> nat { (b: Bucket) => b.seconds }

  lemma {:induction false} SumUpdate(table: seq<Bucket>, k: nat, b: Bucket)
    requires k < |table|
    ensures SumOver(table[k := b], BucketSeconds()) + table[k].seconds ==
            SumOver(table, BucketSeconds()) + b.seconds
  {
    var init := table[..|table| - 1];
    if k == |table| - 1 {
      assert table[k := b][..|table| - 1] == init;
    } else {
      assert table[k := b][..|table| - 1] == init[k := b];
      SumUpdate(init, k, b);
    }
  }

  lemma {:induction false} AddConserves(table: seq<Bucket>, e: Event, seconds: nat, friendly: string -> string)
    ensures SumOver(AddToBucket(table, e, seconds, friendly), BucketSeconds()) ==
            SumOver(table, BucketSeconds()) + seconds
  {
    var k := Place(table, e, 0);
    if k < |table| {
      SumUpdate(table, k, Grow(table[k], e, seconds));
    } else {
      SumOverSnoc(table, Grow(OpenBucket(e, friendly), e, seconds), BucketSeconds());
    }
  }

  lemma {:induction false} StepConserves(table: seq<Bucket>, e: Event, seconds: nat, friendly: string -> string)
    ensures SumOver(StepTable(table, e, seconds, friendly), BucketSeconds()) ==
            SumOver(table, BucketSeconds()) + if Counted(e) then seconds else 0
  {
    if seconds > 0 && Counted(e) {
      AddConserves(table, e, seconds, friendly);
    }
  }

  /** The buckets hold the seconds of the counted events, all of them and nothing else. */
  lemma {:induction false} TableConserves(events: seq<Event>, start: int, end: int, n: nat, friendly: string -> string)
    requires n <= |events|
    ensures SumOver(BucketTable(events, start, end, n, friendly), BucketSeconds()) ==
            EventSeconds(events, start, end, n, Counted)
  {
    if n > 0 {
      TableConserves(events, start, end, n - 1, friendly);
      StepConserves(BucketTable(events, start, end, n - 1, friendly), events[n - 1],
                    SpanSeconds(events, n - 1, start, end), friendly);
    }
  }

  predicate SameKey(a: Bucket, b: Bucket) { a.stableId == b.stableId && a.category == b.category }

  predicate CountedInto(b: Bucket, e: Event) { Counted(e) && Keyed(b, e) }

  function IntoBucket(b: Bucket): Event -> bool { (e: Event) => CountedInto(b, e) }

  ghost predicate TableExact(table: seq<Bucket>, events: seq<Event>, start: int, end: int, n: nat)
    requires n <= |events|
  {
    && (forall i, j :: 0 <= i < j < |table| ==> !SameKey(table[i], table[j]))
    && (forall k :: 0 <= k < |table| ==>
          table[k].seconds == EventSeconds(events, start, end, n, IntoBucket(table[k])))
  }

  lemma {:induction false} EventSecondsSame(
    events: seq<Event>, start: int, end: int, n: nat, p: Event -> bool, q: Event -> bool)
    requires n <= |events| && forall i :: 0 <= i < n ==> p(events[i]) == q(events[i])
    ensures EventSeconds(events, start, end, n, p) == EventSeconds(events, start, end, n, q)
  {
    if n > 0 {
      EventSecondsSame(events, start, end, n - 1, p, q);
    }
  }

  lemma {:induction false} EventSecondsNone(events: seq<Event>, start: int, end: int, n: nat, q: Event -> bool)
    requires n <= |events|
    requires forall i :: 0 <= i < n && q(events[i]) ==> SpanSeconds(events, i, start, end) == 0
    ensures EventSeconds(events, start, end, n, q) == 0
  {
    if n > 0 {
      EventSecondsNone(events, start, end, n - 1, q);
    }
  }

  /** No bucket of the table is the event's exactly when no earlier counted event had its key and time. */
  ghost predicate TableComplete(table: seq<Bucket>, events: seq<Event>, start: int, end: int, n: nat)
    requires n <= |events|
  {
    forall i :: 0 <= i < n && Counted(events[i]) && SpanSeconds(events, i, start, end) > 0 ==>
      HasBucket(table, events[i])
  }

  ghost predicate HasBucket(table: seq<Bucket>, e: Event) {
    exists k :: 0 <= k < |table| && Keyed(table[k], e)
  }

  lemma AddKeepsBuckets(table: seq<Bucket>, e: Event, seconds: nat, friendly: string -> string, o: Event)
    requires HasBucket(table, o) || (o.stableId == e.stableId && BucketCategory(o) == BucketCategory(e))
    ensures HasBucket(AddToBucket(table, e, seconds, friendly), o)
  {
    var k, r := Place(table, e, 0), AddToBucket(table, e, seconds, friendly);
    if HasBucket(table, o) {
      var j :| 0 <= j < |table| && Keyed(table[j], o);
      assert Keyed(r[j], o);
    } else {
      assert Keyed(r[k], o);
    }
  }

  lemma AddStaysExact(
    table: seq<Bucket>, events: seq<Event>, start: int, end: int, n: nat, friendly: string -> string)
    requires n < |events| && TableExact(table, events, start, end, n) && TableComplete(table, events, start, end, n)
    requires Counted(events[n]) && SpanSeconds(events, n, start, end) > 0
    ensures TableExact(AddToBucket(table, events[n], SpanSeconds(events, n, start, end), friendly),
                       events, start, end, n + 1)
  {
    var e, seconds := events[n], SpanSeconds(events, n, start, end);
    var k, r := Place(table, e, 0), AddToBucket(table, e, seconds, friendly);
    forall j | 0 <= j < |r|
      ensures r[j].seconds == EventSeconds(events, start, end, n + 1, IntoBucket(r[j]))
    {
      if j < |table| {
        EventSecondsSame(events, start, end, n, IntoBucket(r[j]), IntoBucket(table[j]));
        assert j != k ==> !Keyed(table[j], e);
      } else {
        forall i | 0 <= i < n && IntoBucket(r[j])(events[i]) ensures SpanSeconds(events, i, start, end) == 0 {
          assert HasBucket(table, events[i]) ==> HasBucket(table, e);
        }
        EventSecondsNone(events, start, end, n, IntoBucket(r[j]));
      }
    }
  }

  lemma AddStaysComplete(
    table: seq<Bucket>, events: seq<Event>, start: int, end: int, n: nat, friendly: string -> string)
    requires n < |events| && TableComplete(table, events, start, end, n)
    ensures TableComplete(AddToBucket(table, events[n], SpanSeconds(events, n, start, end), friendly),
                          events, start, end, n + 1)
  {
    var seconds := SpanSeconds(events, n, start, end);
    forall i | 0 <= i < n + 1 && Counted(events[i]) && SpanSeconds(events, i, start, end) > 0
      ensures HasBucket(AddToBucket(table, events[n], seconds, friendly), events[i])
    {
      AddKeepsBuckets(table, events[n], seconds, friendly, events[i]);
    }
  }

  ghost predicate IsExactTable(table: seq<Bucket>, events: seq<Event>, start: int, end: int, n: nat)
    requires n <= |events|
  {
    TableExact(table, events, start, end, n) && TableComplete(table, events, start, end, n)
  }

  lemma StepStaysExact(table: seq<Bucket>, events: seq<Event>, start: int, end: int, n: nat,
                       friendly: string -> string, next: seq<Bucket>)
    requires n < |events| && IsExactTable(table, events, start, end, n)
    requires next == StepTable(table, events[n], SpanSeconds(events, n, start, end), friendly)
    ensures IsExactTable(next, events, start, end, n + 1)
  {
    if Counted(events[n]) && SpanSeconds(events, n, start, end) > 0 {
      AddStaysExact(table, events, start, end, n, friendly);
      AddStaysComplete(table, events, start, end, n, friendly);
    }
  }

  /** Each bucket holds exactly the measured seconds of the counted events with its key. */
  lemma {:induction false} BucketsAreExact(
    events: seq<Event>, start: int, end: int, n: nat, friendly: string -> string, table: seq<Bucket>)
    requires n <= |events| && table == BucketTable(events, start, end, n, friendly)
    ensures IsExactTable(table, events, start, end, n)
  {
    if n > 0 {
      var prior := BucketTable(events, start, end, n - 1, friendly);
      BucketsAreExact(events, start, end, n - 1, friendly, prior);
      StepStaysExact(prior, events, start, end, n - 1, friendly, table);
    }
  }

  // ----- Order of the buckets -----------------------------------------------

  function IdText(b: Bucket): string { if b.stableId.Some? then b.stableId.value else "" }

  /** More seconds first, then label; the table's own order (identity, category) settles the rest. */
  predicate Before(a: Bucket, b: Bucket) {
    a.seconds > b.seconds || (a.seconds == b.seconds &&
      (if a.name != b.name then TextLe(a.name, b.name)
       else if IdText(a) != IdText(b) then TextLe(IdText(a), IdText(b))
       else TextLe(a.category, b.category)))
  }

  lemma BeforeIsTotal()
    ensures TotalPreorder(Before)
  {
    forall a, b ensures Comparable(Before, a, b) {
      TextLeTotal(a.name, b.name);
      TextLeTotal(IdText(a), IdText(b));
      TextLeTotal(a.category, b.category);
    }
    forall a, b, c ensures Chains(Before, a, b, c) {
      BeforeChains(a, b, c);
    }
  }

  lemma {:induction false} TextLeThrough(a: string, b: string, c: string)
    ensures TextLe(a, b) && TextLe(b, c) ==> TextLe(a, c)
    ensures TextLe(a, b) && TextLe(b, c) && a == c ==> a == b
  {
    if TextLe(a, b) && TextLe(b, c) {
      TextLeTransitive(a, b, c);
      TextLeTotal(a, b);
    }
  }

  lemma BeforeChains(a: Bucket, b: Bucket, c: Bucket)
    ensures Chains(Before, a, b, c)
  {
    TextLeThrough(a.name, b.name, c.name);
    TextLeThrough(IdText(a), IdText(b), IdText(c));
    TextLeThrough(a.category, b.category, c.category);
  }

  // ----- Folding the rest into `Other` --------------------------------------

  predicate IsTiny(b: Bucket, active: nat) {
    b.seconds < TINY_SEGMENT_SECONDS || (active > 0 && b.seconds * 100 < active)
  }

  datatype Selection = Selection(named: seq<Bucket>, otherSeconds: nat)

  function Select(buckets: seq<Bucket>, active: nat, n: nat): Selection
    requires n <= |buckets|
  {
    if n == 0 then Selection([], 0)
    else
      var prior, b := Select(buckets, active, n - 1), buckets[n - 1];
      if IsTiny(b, active) || |prior.named| >= MAX_DISPLAY_BUCKETS
      then prior.(otherSeconds := prior.otherSeconds + b.seconds)
      else prior.(named := prior.named + [b])
  }

  function OtherBucket(seconds: nat): Bucket {
    Bucket("Other", None, None, None, false, "OTHER", seconds, Unknown)
  }

  function WithOther(selection: Selection): seq<Bucket> {
    selection.named + (if selection.otherSeconds > 0 then [OtherBucket(selection.otherSeconds)] else [])
  }

  function SecondsOf(buckets: seq<Bucket>): (seconds: seq<nat>)
    ensures |seconds| == |buckets|
  {
    seq(|buckets|, i requires 0 <= i < |buckets| => buckets[i].seconds)
  }

  /** Larger first, between equals by label, and between like labels by identity. */
  ghost predicate Descending(buckets: seq<Bucket>) {
    forall i, j :: 0 <= i < j < |buckets| ==>
      && buckets[i].seconds >= buckets[j].seconds
      && (buckets[i].seconds == buckets[j].seconds ==> TextLe(buckets[i].name, buckets[j].name))
      && (buckets[i].seconds == buckets[j].seconds && buckets[i].name == buckets[j].name ==>
            TextLe(IdText(buckets[i]), IdText(buckets[j])))
  }

  /** The named buckets are the first `k` in order, and `Other` holds everything after them; `k` is where
      the twelfth is reached or the first tiny bucket stands. */
  ghost predicate IsPrefix(s: Selection, buckets: seq<Bucket>, active: nat, n: nat)
    requires n <= |buckets|
  {
    && |s.named| <= n && |s.named| <= MAX_DISPLAY_BUCKETS
    && s.named == buckets[..|s.named|]
    && (forall i :: 0 <= i < |s.named| ==> !IsTiny(buckets[i], active))
    && (|s.named| < n ==> |s.named| == MAX_DISPLAY_BUCKETS || IsTiny(buckets[|s.named|], active))
  }

  lemma {:induction false} SelectIsPrefix(buckets: seq<Bucket>, active: nat, n: nat)
    requires n <= |buckets| && Descending(buckets)
    ensures IsPrefix(Select(buckets, active, n), buckets, active, n)
  {
    if n > 0 {
      SelectIsPrefix(buckets, active, n - 1);
      var prior, b := Select(buckets, active, n - 1), buckets[n - 1];
      var m := |prior.named|;
      assert m < n - 1 ==> buckets[m].seconds >= b.seconds;
      if m < n - 1 && m < MAX_DISPLAY_BUCKETS {
        assert IsTiny(b, active);
      }
      if m == n - 1 {
        assert buckets[..n] == buckets[..m] + [b];
      }
    }
  }

  lemma {:induction false} SelectConserves(buckets: seq<Bucket>, active: nat, n: nat)
    requires n <= |buckets|
    ensures var s := Select(buckets, active, n);
      s.otherSeconds + SumOver(s.named, BucketSeconds()) == SumOver(buckets[..n], BucketSeconds())
  {
    if n > 0 {
      SelectConserves(buckets, active, n - 1);
      var prior, b := Select(buckets, active, n - 1), buckets[n - 1];
      assert buckets[..n] == buckets[..n - 1] + [b];
      SumOverSnoc(buckets[..n - 1], b, BucketSeconds());
      if !IsTiny(b, active) && |prior.named| < MAX_DISPLAY_BUCKETS {
        SumOverSnoc(prior.named, b, BucketSeconds());
      }
    }
  }

  // ----- The row ------------------------------------------------------------

  function CoverageOf(active: nat, classified: nat, truncated: bool): Coverage {
    if active == 0 then NoData
    else if truncated || 4 * classified < 3 * active then Partial
    else Good
  }

  function StateOf(active: nat, coverage: Coverage, isToday: bool): DayState {
    if active == 0 then NoEvidence
    else if isToday && active < EARLY_SIGNAL_REQUIRED_SECONDS then StillBuilding
    else if coverage != Good then LowConfidence
    else Ready
  }

  /** All buckets of a day, largest first. */
  function SortedBuckets(events: seq<Event>, start: int, end: int, friendly: string -> string): seq<Bucket> {
    var sorted := SortByTime(events);
    SortBy(BucketTable(sorted, start, end, |sorted|, friendly), Before)
  }

  function NamedBuckets(events: seq<Event>, start: int, end: int, friendly: string -> string): Selection {
    var buckets := SortedBuckets(events, start, end, friendly);
    Select(buckets, ActiveSeconds(Segments(events, start, end)), |buckets|)
  }

  /** The value of `aggregate_day`. */
  function Row(events: seq<Event>, start: int, end: int, isToday: bool, truncated: bool,
               friendly: string -> string): DayRow
  {
    var segments := Segments(events, start, end);
    var active := ActiveSeconds(segments);
    var coverage := CoverageOf(active, SecondsWhere(segments, MeaningfulCategory()), truncated);
    var shown := WithOther(NamedBuckets(events, start, end, friendly));
    DayRow(StateOf(active, coverage, isToday), active, coverage, shown, Shares(SecondsOf(shown), active))
  }

  method FillBuckets(sorted: seq<Event>, start: int, end: int, friendly: string -> string)
    returns (table: seq<Bucket>)
    ensures table == BucketTable(sorted, start, end, |sorted|, friendly)
  {
    table := [];
    for index := 0 to |sorted|
      invariant table == BucketTable(sorted, start, end, index, friendly)
    {
      var event := sorted[index];
      var seconds := SpanSeconds(sorted, index, start, end);
      if seconds == 0 || IsSystem(event.category) {
        continue;
      }
      var k := Place(table, event, 0);
      if k < |table| {
        table := table[k := Grow(table[k], event, seconds)];
      } else {
        table := table + [Grow(OpenBucket(event, friendly), event, seconds)];
      }
    }
  }

  method FoldSmall(buckets: seq<Bucket>, active: nat) returns (shown: seq<Bucket>)
    ensures shown == WithOther(Select(buckets, active, |buckets|))
  {
    var named: seq<Bucket>, otherSeconds: nat := [], 0;
    for i := 0 to |buckets|
      invariant Selection(named, otherSeconds) == Select(buckets, active, i)
    {
      if IsTiny(buckets[i], active) || |named| >= MAX_DISPLAY_BUCKETS {
        otherSeconds := otherSeconds + buckets[i].seconds;
      } else {
        named := named + [buckets[i]];
      }
    }
    shown := named;
    if otherSeconds > 0 {
      shown := shown + [OtherBucket(otherSeconds)];
    }
  }

  method AggregateDay(events: seq<Event>, start: int, end: int, isToday: bool, truncated: bool,
                      friendly: string -> string) returns (row: DayRow)
    ensures row == Row(events, start, end, isToday, truncated, friendly)
  {
    var sorted := SortByTime(events);
    var segments := BuildSegments(events, start, end);
    var active := ActiveSeconds(segments);
    var coverage := CoverageOf(active, SecondsWhere(segments, MeaningfulCategory()), truncated);
    var table := FillBuckets(sorted, start, end, friendly);
    var shown := FoldSmall(SortBy(table, Before), active);
    var percentages := BucketPercentages(SecondsOf(shown), active);
    row := DayRow(StateOf(active, coverage, isToday), active, coverage, shown, percentages);
  }

  // ----- Results ------------------------------------------------------------

  lemma {:induction false} SumOfSeconds(buckets: seq<Bucket>)
    ensures Total(SecondsOf(buckets)) == SumOver(buckets, BucketSeconds())
  {
    if buckets != [] {
      SumOfSeconds(buckets[..|buckets| - 1]);
      assert SecondsOf(buckets)[..|buckets| - 1] == SecondsOf(buckets[..|buckets| - 1]);
    }
  }

  lemma SortedBucketsDescend(events: seq<Event>, start: int, end: int, friendly: string -> string)
    ensures Descending(SortedBuckets(events, start, end, friendly))
  {
    var sorted := SortByTime(events);
    var table := BucketTable(sorted, start, end, |sorted|, friendly);
    BeforeIsTotal();
    SortBySorted(table, Before);
    var buckets := SortedBuckets(events, start, end, friendly);
    forall i, j | 0 <= i < j < |buckets|
      ensures buckets[i].seconds >= buckets[j].seconds
      ensures buckets[i].seconds == buckets[j].seconds ==> TextLe(buckets[i].name, buckets[j].name)
      ensures buckets[i].seconds == buckets[j].seconds && buckets[i].name == buckets[j].name ==>
                TextLe(IdText(buckets[i]), IdText(buckets[j]))
    {
      assert Before(buckets[i], buckets[j]);
      TextLeTotal(buckets[i].name, buckets[j].name);
      TextLeTotal(IdText(buckets[i]), IdText(buckets[j]));
    }
  }

  predicate IsOther(b: Bucket) {
    && b.name == "Other" && b.category == "OTHER" && b.seconds > 0 && b.confidence == Unknown && !b.aliasConfirmed
    && b.representativeEventId == None && b.stableId == None && b.suggestedName == None
  }

  /** The named buckets are a prefix of the largest-first order, everything else is `Other`, and the row
      has at most thirteen entries. */
  lemma RowShape(events: seq<Event>, start: int, end: int, isToday: bool, truncated: bool,
                 friendly: string -> string)
    ensures var row := Row(events, start, end, isToday, truncated, friendly);
            var buckets := SortedBuckets(events, start, end, friendly);
            var named := NamedBuckets(events, start, end, friendly).named;
      && |row.buckets| <= 13 && |named| <= 12
      && |named| <= |buckets| && named == buckets[..|named|] && named <= row.buckets
      && (row.buckets == named || (|row.buckets| == |named| + 1 && IsOther(row.buckets[|named|])))
      && (forall i :: 0 <= i < |named| ==> named[i].seconds >= 30 && named[i].seconds * 100 >= row.activeSeconds)
      && (|named| < |buckets| && |named| < 12 ==>
            buckets[|named|].seconds < 30 || buckets[|named|].seconds * 100 < row.activeSeconds)
      && Descending(buckets)
  {
    var buckets := SortedBuckets(events, start, end, friendly);
    SortedBucketsDescend(events, start, end, friendly);
    SelectIsPrefix(buckets, ActiveSeconds(Segments(events, start, end)), |buckets|);
  }

  lemma {:induction false} RowSeconds(events: seq<Event>, start: int, end: int, isToday: bool, truncated: bool,
                   friendly: string -> string)
    ensures Total(SecondsOf(Row(events, start, end, isToday, truncated, friendly).buckets)) ==
            EventSeconds(SortByTime(events), start, end, |events|, Counted)
  {
    var sorted, buckets := SortByTime(events), SortedBuckets(events, start, end, friendly);
    var selection := NamedBuckets(events, start, end, friendly);
    TableConserves(sorted, start, end, |sorted|, friendly);
    SortSums(BucketTable(sorted, start, end, |sorted|, friendly), Before, BucketSeconds());
    SelectConserves(buckets, ActiveSeconds(Segments(events, start, end)), |buckets|);
    assert buckets[..|buckets|] == buckets;
    OtherSum(selection);
    SumOfSeconds(WithOther(selection));
  }

  lemma OtherSum(selection: Selection)
    ensures SumOver(WithOther(selection), BucketSeconds()) ==
            SumOver(selection.named, BucketSeconds()) + selection.otherSeconds
  {
    if selection.otherSeconds > 0 {
      SumOverSnoc(selection.named, OtherBucket(selection.otherSeconds), BucketSeconds());
    } else {
      assert WithOther(selection) == selection.named;
    }
  }

  lemma ActiveIsCountedOrUnsure(e: Event)
    ensures NotSystem()(SafeCategory(e)) <==> Counted(e) || UnsureSystem(e)
    ensures !(Counted(e) && UnsureSystem(e))
  {
    EqIgnoreCaseIsEqualUpper(e.category, "SYSTEM");
    EqIgnoreCaseIsEqualUpper(Upper(e.category), "SYSTEM");
    UpperTwice(e.category);
    assert |"UNCLASSIFIED"| != |"SYSTEM"|;
  }

  /** Main result: the row's seconds are the active seconds less the time of SYSTEM events that were not
      confidently classified, which the timeline counts as unclassified and the buckets skip. */
  lemma {:induction false} RowConserves(events: seq<Event>, start: int, end: int, isToday: bool, truncated: bool,
                     friendly: string -> string)
    ensures var row := Row(events, start, end, isToday, truncated, friendly);
      row.activeSeconds == Total(SecondsOf(row.buckets)) +
                           EventSeconds(SortByTime(events), start, end, |events|, UnsureSystem)
  {
    var sorted := SortByTime(events);
    RowSeconds(events, start, end, isToday, truncated, friendly);
    EventSecondsAreShown(sorted, start, end, |sorted|, Counted);
    EventSecondsAreShown(sorted, start, end, |sorted|, UnsureSystem);
    SegmentSecondsAreShown(events, start, end, NotSystem());
    var active := WindowWhere(sorted, start, end, NotSystem());
    var counted := ShownTo(sorted, start, end, |sorted|, Counted);
    var unsure := ShownTo(sorted, start, end, |sorted|, UnsureSystem);
    forall s ensures active(s) == (counted(s) || unsure(s)) && !(counted(s) && unsure(s)) {
      if Shown(sorted, s).Some? {
        ActiveIsCountedOrUnsure(Shown(sorted, s).value);
      }
    }
    CountDisjoint(active, counted, unsure, start, end);
  }

  /** When no SYSTEM event that was not confidently classified is on screen during it, an active day's
      percentages are exact shares: they sum to 100, each the floor or the ceiling of its share. */
  lemma {:induction false} RowPercentages(events: seq<Event>, start: int, end: int, isToday: bool, truncated: bool,
                       friendly: string -> string)
    requires EventSeconds(SortByTime(events), start, end, |events|, UnsureSystem) == 0
    ensures var row := Row(events, start, end, isToday, truncated, friendly);
      row.activeSeconds > 0 ==>
        && Total(row.percentages) == 100
        && forall i :: 0 <= i < |row.buckets| ==>
             row.buckets[i].seconds * 100 / row.activeSeconds <= row.percentages[i]
             <= Ceiling(row.buckets[i].seconds, row.activeSeconds)
  {
    var row := Row(events, start, end, isToday, truncated, friendly);
    RowConserves(events, start, end, isToday, truncated, friendly);
    if row.activeSeconds > 0 {
      PercentagesAreFair(SecondsOf(row.buckets), row.activeSeconds);
    }
  }

  // ----- A day whose buckets do not fill it ---------------------------------

  /** Fifty seconds of confident work, then fifty of a SYSTEM event that was not confidently classified. */
  predicate IsHalfSystem(events: seq<Event>) {
    && |events| == 2
    && events[0].occurredAt == 0 && events[0].durationSeconds == 50
    && IsConfidentEvent(events[0]) && !IsSystem(events[0].category)
    && events[1].occurredAt == 50 && events[1].durationSeconds == 50
    && UnsureSystem(events[1])
  }

  lemma {:induction false} HalfSystemSeconds(events: seq<Event>)
    requires IsHalfSystem(events)
    ensures SortByTime(events) == events
    ensures SpanSeconds(events, 0, 0, 100) == 50 && SpanSeconds(events, 1, 0, 100) == 50
    ensures EventSeconds(events, 0, 100, 2, Counted) == 50
    ensures EventSeconds(events, 0, 100, 2, UnsureSystem) == 50
  {
    assert InTimeOrder(events);
    assert EventSeconds(events, 0, 100, 1, Counted) == 50 + EventSeconds(events, 0, 100, 0, Counted);
    assert EventSeconds(events, 0, 100, 1, UnsureSystem) == EventSeconds(events, 0, 100, 0, UnsureSystem);
  }

  lemma HalfSystemBuckets(events: seq<Event>, friendly: string -> string)
    requires IsHalfSystem(events)
    ensures var buckets := SortedBuckets(events, 0, 100, friendly); |buckets| == 1 && buckets[0].seconds == 50
  {
    HalfSystemSeconds(events);
    var empty := BucketTable(events, 0, 100, 0, friendly);
    var one := BucketTable(events, 0, 100, 1, friendly);
    assert empty == [] && one == [Grow(OpenBucket(events[0], friendly), events[0], 50)];
    assert BucketTable(events, 0, 100, 2, friendly) == one;
    SortBySortedInput(one, Before);
  }

  /** Such a day's one bucket, half of the active time, is shown at 51 percent. */
  lemma HalfSystemDayReads51(events: seq<Event>, isToday: bool, truncated: bool, friendly: string -> string)
    requires IsHalfSystem(events)
    ensures var row := Row(events, 0, 100, isToday, truncated, friendly);
      row.activeSeconds == 100 && SecondsOf(row.buckets) == [50] && row.percentages == [51]
  {
    var row := Row(events, 0, 100, isToday, truncated, friendly);
    HalfSystemSeconds(events);
    RowConserves(events, 0, 100, isToday, truncated, friendly);
    RowSeconds(events, 0, 100, isToday, truncated, friendly);
    HalfSystemBuckets(events, friendly);
    var buckets := SortedBuckets(events, 0, 100, friendly);
    assert Select(buckets, 100, 1) == Selection([buckets[0]], 0) by {
      assert Select(buckets, 100, 0) == Selection([], 0);
    }
    assert row.buckets == [buckets[0]];
    HalfTheDayReads51();
  }
}
