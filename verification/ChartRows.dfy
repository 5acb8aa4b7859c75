/** What a row of the Daily Activity chart says of its day, in terms of what was on screen. */
module ChartRows {
  import opened Prelude
  import opened Timeline
  import opened DayActivity
  import Clusters

  // ----- Active and classified time -----------------------------------------

  /** The seconds at which some category other than these is on screen. */
  function ShowsNoneOf(events: seq<Event>, start: int, end: int, categories: seq<string>): int -> bool {
    s => var c := ShownCategory(events, start, end, s); c.Some? && c.value !in categories
  }

  /** Every second of the day at which something other than SYSTEM is on screen. */
  function ActiveShown(events: seq<Event>, start: int, end: int): nat {
    Count(ShowsNoneOf(SortByTime(events), start, end, ["SYSTEM"]), start, end)
  }

  /** Every second at which a category that says something is on screen. */
  function ClassifiedShown(events: seq<Event>, start: int, end: int): nat {
    Count(ShowsNoneOf(SortByTime(events), start, end, ["UNCLASSIFIED", "SYSTEM", "IDLE", "UNLOGGED"]), start, end)
  }

  lemma LiteralIsUpper()
    ensures Upper("UNCLASSIFIED") == "UNCLASSIFIED" && Upper("SYSTEM") == "SYSTEM"
  {
  }

  lemma SafeIsUpper(e: Event)
    ensures Upper(SafeCategory(e)) == SafeCategory(e)
  {
    UpperTwice(e.category);
    LiteralIsUpper();
  }

  lemma NotSystemMeans(e: Event)
    ensures NotSystem()(SafeCategory(e)) <==> SafeCategory(e) !in ["SYSTEM"]
  {
    SafeIsUpper(e);
    LiteralIsUpper();
    EqIgnoreCaseIsEqualUpper(SafeCategory(e), "SYSTEM");
  }

  lemma MeaningfulMeans(e: Event)
    ensures MeaningfulCategory()(SafeCategory(e)) <==>
            SafeCategory(e) !in ["UNCLASSIFIED", "SYSTEM", "IDLE", "UNLOGGED"]
  {
    SafeIsUpper(e);
  }

  lemma ActiveIsShown(events: seq<Event>, start: int, end: int)
    ensures ActiveSeconds(Segments(events, start, end)) == ActiveShown(events, start, end)
  {
    var sorted := SortByTime(events);
    SegmentSecondsAreShown(events, start, end, NotSystem());
    var p, q := WindowWhere(sorted, start, end, NotSystem()), ShowsNoneOf(sorted, start, end, ["SYSTEM"]);
    forall s ensures p(s) == q(s) {
      if Shown(sorted, s).Some? {
        NotSystemMeans(Shown(sorted, s).value);
      }
    }
    CountSame(p, q, start, end);
  }

  lemma ClassifiedIsShown(events: seq<Event>, start: int, end: int)
    ensures SecondsWhere(Segments(events, start, end), MeaningfulCategory()) == ClassifiedShown(events, start, end)
  {
    var sorted := SortByTime(events);
    SegmentSecondsAreShown(events, start, end, MeaningfulCategory());
    var p := WindowWhere(sorted, start, end, MeaningfulCategory());
    var q := ShowsNoneOf(sorted, start, end, ["UNCLASSIFIED", "SYSTEM", "IDLE", "UNLOGGED"]);
    forall s ensures p(s) == q(s) {
      if Shown(sorted, s).Some? {
        MeaningfulMeans(Shown(sorted, s).value);
      }
    }
    CountSame(p, q, start, end);
  }

  /** A row's coverage and state, from the seconds on screen. Coverage is good exactly when there is active time,
      the read was not cut, and at least three quarters of it are classified; a day is ready exactly when its
      coverage is good and, if it is today, it has at least a minute. */
  lemma RowCoverage(events: seq<Event>, start: int, end: int, isToday: bool, truncated: bool,
                    friendly: string -> string)
    ensures var row := Row(events, start, end, isToday, truncated, friendly);
            var active, classified := ActiveShown(events, start, end), ClassifiedShown(events, start, end);
      && row.activeSeconds == active
      && (row.coverage == NoData <==> active == 0)
      && (row.coverage == Good <==> active > 0 && !truncated && 4 * classified >= 3 * active)
      && (row.state == NoEvidence <==> active == 0)
      && (row.state == StillBuilding <==> 0 < active < 60 && isToday)
      && (row.state == Ready <==> row.coverage == Good && (isToday ==> active >= 60))
      && (row.state == LowConfidence <==> row.coverage == Partial && (isToday ==> active >= 60))
  {
    ActiveIsShown(events, start, end);
    ClassifiedIsShown(events, start, end);
  }

  // ----- What a bucket shows ------------------------------------------------

  // Below, `p` picks out the events that contribute to some bucket (`Picks`).

  predicate Takes(b: Bucket, events: seq<Event>, p: int -> bool, i: int) {
    0 <= i < |events| && p(i) && Keyed(b, events[i])
  }

  /** The bucket shows what the event says of itself. */
  predicate ShowsEvent(b: Bucket, e: Event, friendly: string -> string) {
    var sure := e.status == "classified" && (e.confidence == "high" || e.confidence == "medium");
    && b.representativeEventId == Some(e.eventId)
    && b.stableId == Some(e.stableId)
    && b.suggestedName == e.nameSuggestion
    && b.aliasConfirmed == (e.source == "user_rule")
    && b.category == (if sure then e.category else "UNCLASSIFIED")
    && b.name == (if !sure then "Unclassified"
                  else if e.displayLabel.Some? && HasText(e.displayLabel.value) then e.displayLabel.value
                  else friendly(e.category))
  }

  predicate HasText(name: string) {
    exists i :: 0 <= i < |name| && !IsWhitespace(name[i])
  }

  /** Event `i` is the first of the first `n` the bucket takes. */
  ghost predicate IsFirst(b: Bucket, events: seq<Event>, p: int -> bool, n: nat, i: int) {
    0 <= i < n && Takes(b, events, p, i) && forall j :: 0 <= j < i ==> !Takes(b, events, p, j)
  }

  ghost predicate ShowsFirst(b: Bucket, events: seq<Event>, p: int -> bool, n: nat, friendly: string -> string) {
    exists i :: IsFirst(b, events, p, n, i) && ShowsEvent(b, events[i], friendly)
  }

  /** As confident as the least confident event it takes. */
  ghost predicate IsWeakest(b: Bucket, events: seq<Event>, p: int -> bool, n: nat) {
    && (forall j :: 0 <= j < n && Takes(b, events, p, j) ==>
          Rank(b.confidence) <= Rank(ParseConfidence(events[j].confidence)))
    && (exists j :: 0 <= j < n && Takes(b, events, p, j) && b.confidence == ParseConfidence(events[j].confidence))
  }

  ghost predicate IsDescribed(b: Bucket, events: seq<Event>, p: int -> bool, n: nat, friendly: string -> string) {
    ShowsFirst(b, events, p, n, friendly) && IsWeakest(b, events, p, n)
  }

  ghost predicate AllDescribed(
    table: seq<Bucket>, events: seq<Event>, p: int -> bool, n: nat, friendly: string -> string)
  {
    forall k :: 0 <= k < |table| ==> IsDescribed(table[k], events, p, n, friendly)
  }

  lemma FirstStays(b: Bucket, next: Bucket, events: seq<Event>, p: int -> bool, n: nat, friendly: string -> string)
    requires ShowsFirst(b, events, p, n, friendly)
    requires next == b.(seconds := next.seconds, confidence := next.confidence)
    ensures ShowsFirst(next, events, p, n + 1, friendly)
  {
    var i :| IsFirst(b, events, p, n, i) && ShowsEvent(b, events[i], friendly);
    assert forall j :: Takes(next, events, p, j) == Takes(b, events, p, j);
    assert IsFirst(next, events, p, n + 1, i) && ShowsEvent(next, events[i], friendly);
  }

  lemma WeakestStays(b: Bucket, events: seq<Event>, p: int -> bool, n: nat)
    requires IsWeakest(b, events, p, n) && !Takes(b, events, p, n)
    ensures IsWeakest(b, events, p, n + 1)
  {
  }

  lemma WeakestGrows(b: Bucket, next: Bucket, events: seq<Event>, p: int -> bool, n: nat)
    requires IsWeakest(b, events, p, n) && Takes(b, events, p, n)
    requires next == b.(seconds := next.seconds,
                        confidence := WeakerConfidence(b.confidence, ParseConfidence(events[n].confidence)))
    ensures IsWeakest(next, events, p, n + 1)
  {
    assert forall j :: Takes(next, events, p, j) == Takes(b, events, p, j);
    var w :| 0 <= w < n && Takes(b, events, p, w) && b.confidence == ParseConfidence(events[w].confidence);
    var v := if next.confidence == b.confidence then w else n;
    assert Takes(next, events, p, v) && next.confidence == ParseConfidence(events[v].confidence);
  }

  lemma OpenedIsDescribed(
    b: Bucket, events: seq<Event>, p: int -> bool, n: nat, friendly: string -> string, seconds: nat)
    requires n < |events| && p(n) && b == Grow(OpenBucket(events[n], friendly), events[n], seconds)
    requires forall j :: 0 <= j < n ==> !Takes(b, events, p, j)
    ensures IsDescribed(b, events, p, n + 1, friendly)
  {
    assert Takes(b, events, p, n) && IsFirst(b, events, p, n + 1, n);
    assert ShowsEvent(b, events[n], friendly);
    assert b.confidence == ParseConfidence(events[n].confidence);
  }

  /** The table's keys are distinct, and every event that contributes has a bucket. */
  ghost predicate IsKeyedTable(table: seq<Bucket>, events: seq<Event>, p: int -> bool, n: nat) {
    && (forall i, j :: 0 <= i < j < |table| ==> !SameKey(table[i], table[j]))
    && (forall i :: 0 <= i < n && i < |events| && p(i) ==> HasBucket(table, events[i]))
  }

  lemma NoneTakenBefore(table: seq<Bucket>, events: seq<Event>, p: int -> bool, n: nat, b: Bucket, i: nat)
    requires n < |events| && i < n && IsKeyedTable(table, events, p, n)
    requires !HasBucket(table, events[n]) && Keyed(b, events[n])
    ensures !Takes(b, events, p, i)
  {
    if p(i) {
      var k :| 0 <= k < |table| && Keyed(table[k], events[i]);
      assert Keyed(b, events[i]) ==> Keyed(table[k], events[n]);
    }
  }

  lemma OtherStaysDescribed(b: Bucket, events: seq<Event>, p: int -> bool, n: nat, friendly: string -> string)
    requires IsDescribed(b, events, p, n, friendly) && !Takes(b, events, p, n)
    ensures IsDescribed(b, events, p, n + 1, friendly)
  {
    FirstStays(b, b, events, p, n, friendly);
    WeakestStays(b, events, p, n);
  }

  lemma GrownIsDescribed(
    b: Bucket, events: seq<Event>, p: int -> bool, n: nat, friendly: string -> string, seconds: nat, grown: Bucket)
    requires IsDescribed(b, events, p, n, friendly) && Takes(b, events, p, n) && grown == Grow(b, events[n], seconds)
    ensures IsDescribed(grown, events, p, n + 1, friendly)
  {
    FirstStays(b, grown, events, p, n, friendly);
    WeakestGrows(b, grown, events, p, n);
  }

  /** Each bucket, once event `n` is added to its own. */
  lemma AddedIsDescribed(table: seq<Bucket>, events: seq<Event>, p: int -> bool, n: nat, friendly: string -> string,
                         seconds: nat, r: seq<Bucket>, j: nat)
    requires n < |events| && p(n) && r == AddToBucket(table, events[n], seconds, friendly) && j < |r|
    requires IsKeyedTable(table, events, p, n)
    requires j < |table| ==> IsDescribed(table[j], events, p, n, friendly)
    ensures IsDescribed(r[j], events, p, n + 1, friendly)
  {
    var k := Place(table, events[n], 0);
    if j == |table| {
      forall i | 0 <= i < n ensures !Takes(r[j], events, p, i) {
        NoneTakenBefore(table, events, p, n, r[j], i);
      }
      OpenedIsDescribed(r[j], events, p, n, friendly, seconds);
    } else if j == k {
      GrownIsDescribed(table[j], events, p, n, friendly, seconds, r[j]);
    } else {
      OnlyOneTakes(table, events[n], j);
      OtherStaysDescribed(table[j], events, p, n, friendly);
    }
  }

  lemma {:induction false} OnlyOneTakes(table: seq<Bucket>, e: Event, j: nat)
    requires j < |table| && j != Place(table, e, 0)
    requires forall i, j :: 0 <= i < j < |table| ==> !SameKey(table[i], table[j])
    ensures !Keyed(table[j], e)
  {
  }

  lemma StepStaysDescribed(table: seq<Bucket>, events: seq<Event>, p: int -> bool, n: nat, friendly: string -> string,
                           seconds: nat, next: seq<Bucket>)
    requires n < |events| && (p(n) <==> Counted(events[n]) && seconds > 0)
    requires IsKeyedTable(table, events, p, n) && AllDescribed(table, events, p, n, friendly)
    requires next == StepTable(table, events[n], seconds, friendly)
    ensures AllDescribed(next, events, p, n + 1, friendly)
  {
    forall k | 0 <= k < |next| ensures IsDescribed(next[k], events, p, n + 1, friendly) {
      if p(n) {
        AddedIsDescribed(table, events, p, n, friendly, seconds, next, k);
      } else {
        OtherStaysDescribed(table[k], events, p, n, friendly);
      }
    }
  }

  /** `p` picks out the counted events with time in the day. */
  ghost predicate Picks(p: int -> bool, events: seq<Event>, start: int, end: int) {
    forall i {:trigger SpanSeconds(events, i, start, end)} :: 0 <= i < |events| ==>
      (p(i) <==> Counted(events[i]) && SpanSeconds(events, i, start, end) > 0)
  }

  lemma {:induction false} TableIsKeyed(events: seq<Event>, start: int, end: int, n: nat, friendly: string -> string,
                                        table: seq<Bucket>, p: int -> bool)
    requires n <= |events| && table == BucketTable(events, start, end, n, friendly) && Picks(p, events, start, end)
    ensures IsKeyedTable(table, events, p, n)
  {
    BucketsAreExact(events, start, end, n, friendly, table);
    forall i | 0 <= i < n && p(i) ensures HasBucket(table, events[i]) {
      assert SpanSeconds(events, i, start, end) > 0;
    }
  }

  lemma {:induction false} NextIsDescribed(
    events: seq<Event>, start: int, end: int, n: nat, friendly: string -> string,
    table: seq<Bucket>, next: seq<Bucket>, p: int -> bool)
    requires n < |events| && Picks(p, events, start, end)
    requires table == BucketTable(events, start, end, n, friendly)
    requires next == StepTable(table, events[n], SpanSeconds(events, n, start, end), friendly)
    requires AllDescribed(table, events, p, n, friendly)
    ensures AllDescribed(next, events, p, n + 1, friendly)
  {
    TableIsKeyed(events, start, end, n, friendly, table, p);
    StepStaysDescribed(table, events, p, n, friendly, SpanSeconds(events, n, start, end), next);
  }

  /** Every bucket shows the identity, name and origin of the first event that contributes to it, and the weakest
      confidence of those that do. */
  lemma {:induction false} BucketsAreDescribed(events: seq<Event>, start: int, end: int, n: nat,
                                               friendly: string -> string, table: seq<Bucket>, p: int -> bool)
    requires n <= |events| && Picks(p, events, start, end)
    requires table == BucketTable(events, start, end, n, friendly)
    ensures AllDescribed(table, events, p, n, friendly)
  {
    if n > 0 {
      var prior := BucketTable(events, start, end, n - 1, friendly);
      BucketsAreDescribed(events, start, end, n - 1, friendly, prior, p);
      NextIsDescribed(events, start, end, n - 1, friendly, prior, table, p);
    }
  }
}
