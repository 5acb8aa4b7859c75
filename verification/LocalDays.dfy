/** Local calendar days: the bounded read behind each day's chart row and summary. */
module LocalDays {
  import opened Prelude
  import opened Sorting
  import opened Timeline

  const MAX_DAY_EVENTS: nat := 16384
  const MAX_EVENT_DURATION_SECONDS: nat := 1800

  // ----- The capped read ----------------------------------------------------

  function Within(lo: int, hi: int): Event -> bool {
    (e: Event) => lo <= e.occurredAt <= hi
  }

  /** `events_between`: the stored events of a closed time range, earliest first, at most `limit`.
      `history` is the store in read order. */
  function EventsBetween(history: seq<Event>, start: int, end: int, limit: nat): seq<Event> {
    if end <= start || limit == 0 then []
    else
      var hits := Filter(history, Within(start, end));
      if |hits| <= limit then hits else hits[..limit]
  }

  lemma BegunByMonotone(events: seq<Event>, s: int, t: int)
    requires InTimeOrder(events) && s <= t
    ensures BegunBy(events, s) <= BegunBy(events, t)
  {
  }

  /** On a time-ordered store the range read is one contiguous slice. */
  lemma {:induction false} RangeIsSlice(history: seq<Event>, lo: int, hi: int)
    requires InTimeOrder(history) && lo <= hi
    ensures BegunBy(history, lo - 1) <= BegunBy(history, hi)
    ensures Filter(history, Within(lo, hi)) ==
            history[BegunBy(history, lo - 1)..BegunBy(history, hi)]
  {
    BegunByMonotone(history, lo - 1, hi);
    FilterIsSlice(history, Within(lo, hi), BegunBy(history, lo - 1), BegunBy(history, hi));
  }

  lemma EventsBetweenIsSlice(history: seq<Event>, lo: int, hi: int, limit: nat)
    requires InTimeOrder(history) && lo < hi && 0 < limit
    ensures BegunBy(history, lo - 1) <= BegunBy(history, hi)
    ensures EventsBetween(history, lo, hi, limit) ==
            history[BegunBy(history, lo - 1)..Min(BegunBy(history, hi), BegunBy(history, lo - 1) + limit)]
  {
    RangeIsSlice(history, lo, hi);
    var a, b := BegunBy(history, lo - 1), BegunBy(history, hi);
    if b - a > limit {
      assert history[a..b][..limit] == history[a..a + limit];
    }
  }

  /** What a slice shows: its latest event to have begun, if that is still on. */
  function ShownAmong(history: seq<Event>, a: nat, m: nat, s: int): Option<Event>
    requires m <= |history|
  {
    if a < m && StillOn(history[m - 1], s) then Some(history[m - 1]) else None
  }

  lemma SliceShows(history: seq<Event>, a: nat, b: nat, s: int)
    requires InTimeOrder(history) && a <= b <= |history|
    ensures InTimeOrder(history[a..b])
    ensures Shown(history[a..b], s) == ShownAmong(history, a, Min(BegunBy(history, s), b), s)
  {
    var slice, n := history[a..b], BegunBy(history, s);
    var m := Max(0, Min(n, b) - a);
    assert forall i :: 0 <= i < |slice| ==> slice[i] == history[a + i];
    BegunByAt(slice, s, m);
  }

  // ----- One day ------------------------------------------------------------

  datatype LocalDay = LocalDay(
    date: int,
    start: int,
    end: int,
    isToday: bool,
    events: seq<Event>,
    truncated: bool)

  /** Local midnight of a day number, and the next, in UTC seconds. */
  function DayStart(date: int, offset: int): int { date * 86400 - offset }

  /** The local day number `now` falls on. */
  function Today(now: int, offset: int): (date: int)
    ensures DayStart(date, offset) <= now < DayStart(date + 1, offset)
  {
    (now + offset) / 86400
  }

  /** Where a day ends: a truncated read holds it only up to its last event. */
  function CutEnd(events: seq<Event>, truncated: bool, end: int): int {
    if truncated && |events| > 0 then Min(events[|events| - 1].occurredAt, end) else end
  }

  function ReadDay(history: seq<Event>, now: int, offset: int, date: int, cap: nat): LocalDay {
    var start := DayStart(date, offset);
    var end := Min(start + 86400, now);
    var events := EventsBetween(history, start - MAX_EVENT_DURATION_SECONDS, end, cap);
    var truncated := |events| >= cap;
    LocalDay(date, start, CutEnd(events, truncated, end), date == Today(now, offset), events, truncated)
  }

  /** The same day, read with a cap no store reaches. */
  function ReadWholeDay(history: seq<Event>, now: int, offset: int, date: int): LocalDay {
    ReadDay(history, now, offset, date, |history| + 1)
  }

  function DaySegments(day: LocalDay): seq<Segment> {
    Segments(day.events, day.start, day.end)
  }

  /** The read of a day that has begun is a slice of the store, cut off at its earliest `cap` events. */
  lemma ReadIsSlice(history: seq<Event>, now: int, offset: int, date: int, cap: nat) returns (a: nat, b: nat)
    requires InTimeOrder(history) && date <= Today(now, offset) && 0 < cap
    ensures var day := ReadDay(history, now, offset, date, cap);
            var end := Min(day.start + 86400, now);
      && a == BegunBy(history, day.start - MAX_EVENT_DURATION_SECONDS - 1)
      && a <= b <= |history|
      && day.start <= end
      && b == Min(BegunBy(history, end), a + cap)
      && day.events == history[a..b]
  {
    var start := DayStart(date, offset);
    var end := Min(start + 86400, now);
    a := BegunBy(history, start - MAX_EVENT_DURATION_SECONDS - 1);
    b := Min(BegunBy(history, end), a + cap);
    EventsBetweenIsSlice(history, start - MAX_EVENT_DURATION_SECONDS, end, cap);
  }

  lemma CutShows(history: seq<Event>, a: nat, b: nat, c: nat, s: int)
    requires InTimeOrder(history) && a <= b <= c <= |history|
    requires b == c || (a < b && s < history[b - 1].occurredAt)
    ensures Shown(history[a..b], s) == Shown(history[a..c], s)
  {
    SliceShows(history, a, b, s);
    SliceShows(history, a, c, s);
  }

  /** `cut` shows what `whole` shows at every second before the end it reports, and nothing from there on; a
      truncated day ends at the last event read, or with the day if that is earlier. */
  ghost predicate IsCutOf(cut: LocalDay, whole: LocalDay) {
    && cut.start == whole.start
    && CutsShort(cut.events, whole.events, cut.start, cut.end, whole.end)
    && (cut.truncated ==> cut.events != [] && cut.end == Min(cut.events[|cut.events| - 1].occurredAt, whole.end))
    && (!cut.truncated ==> cut.events == whole.events && cut.end == whole.end)
  }

  /** A day read from one slice of the store, and the day from a slice that goes on further. */
  lemma SlicedDays(history: seq<Event>, a: nat, b: nat, c: nat, cap: nat, end: int, cut: LocalDay, whole: LocalDay)
    requires InTimeOrder(history) && a <= b <= c <= |history| && 0 < cap && b == Min(c, a + cap)
    requires cut.events == history[a..b] && whole.events == history[a..c] && cut.start == whole.start
    requires cut.truncated == (b - a >= cap) && cut.end == CutEnd(history[a..b], b - a >= cap, end) && whole.end == end
    ensures IsCutOf(cut, whole)
  {
    CutReadAgrees(history, a, b, c, cap, cut.start, end);
  }

  /** A read cut off at its cap agrees with the uncut day up to the end it reports, and claims nothing from
      there on, even when every event read falls before the day. */
  lemma CutDayAgrees(history: seq<Event>, now: int, offset: int, date: int, cap: nat)
    requires InTimeOrder(history) && date <= Today(now, offset) && 0 < cap
    ensures IsCutOf(ReadDay(history, now, offset, date, cap), ReadWholeDay(history, now, offset, date))
  {
    var a, b := ReadIsSlice(history, now, offset, date, cap);
    var _, c := ReadIsSlice(history, now, offset, date, |history| + 1);
    SlicedDays(history, a, b, c, cap, Min(DayStart(date, offset) + 86400, now),
               ReadDay(history, now, offset, date, cap), ReadWholeDay(history, now, offset, date));
  }

  lemma CutReadAgrees(
    history: seq<Event>, a: nat, b: nat, c: nat, cap: nat, start: int, end: int)
    requires InTimeOrder(history) && a <= b <= c <= |history| && 0 < cap && b == Min(c, a + cap)
    ensures CutsShort(history[a..b], history[a..c], start, CutEnd(history[a..b], b - a >= cap, end), end)
    ensures b - a >= cap ==> CutEnd(history[a..b], true, end) == Min(history[b - 1].occurredAt, end)
  {
    var events := history[a..b];
    assert a < b ==> events[|events| - 1] == history[b - 1];
    CutSegmentsAgree(history, a, b, c, start, CutEnd(events, b - a >= cap, end), end);
  }

  lemma CutSegmentsAgree(history: seq<Event>, a: nat, b: nat, c: nat, start: int, cutEnd: int, end: int)
    requires InTimeOrder(history) && a <= b <= c <= |history| && cutEnd <= end
    requires b == c || (a < b && cutEnd <= history[b - 1].occurredAt)
    ensures CutsShort(history[a..b], history[a..c], start, cutEnd, end)
  {
    var x, y := history[a..b], history[a..c];
    SliceShows(history, a, b, 0);
    SliceShows(history, a, c, 0);
    forall s | s < cutEnd ensures Shown(x, s) == Shown(y, s) {
      CutShows(history, a, b, c, s);
    }
    CutByShown(x, y, start, cutEnd, end);
  }

  ghost predicate CutsShort(x: seq<Event>, y: seq<Event>, start: int, cutEnd: int, end: int) {
    forall s :: CategoryAt(Segments(x, start, cutEnd), s) ==
                if s < cutEnd then CategoryAt(Segments(y, start, end), s) else None
  }

  lemma CutByShown(x: seq<Event>, y: seq<Event>, start: int, cutEnd: int, end: int)
    requires InTimeOrder(x) && InTimeOrder(y) && cutEnd <= end
    requires forall s :: s < cutEnd ==> Shown(x, s) == Shown(y, s)
    ensures CutsShort(x, y, start, cutEnd, end)
  {
    SegmentsDenote(x, start, cutEnd);
    SegmentsDenote(y, start, end);
  }

  // ----- A day against the whole history ------------------------------------

  /** Whatever is on screen at local midnight began within the look-back of the day's read. */
  predicate CleanStart(history: seq<Event>, start: int) {
    var shown := Shown(history, start);
    shown.Some? ==> start - 1800 <= shown.value.occurredAt
  }

  /** The uncut read for `[start, end)`. */
  function DayRead(history: seq<Event>, start: int, end: int): seq<Event>
    requires InTimeOrder(history) && start <= end
  {
    BegunByMonotone(history, start - MAX_EVENT_DURATION_SECONDS - 1, end);
    history[BegunBy(history, start - MAX_EVENT_DURATION_SECONDS - 1)..BegunBy(history, end)]
  }

  lemma DayReadShows(history: seq<Event>, start: int, end: int, s: int)
    requires InTimeOrder(history) && start <= s < end
    ensures InTimeOrder(DayRead(history, start, end))
    ensures CleanStart(history, start) ==> Shown(DayRead(history, start, end), s) == Shown(history, s)
    ensures !CleanStart(history, start) && s == start ==> Shown(DayRead(history, start, end), s) == None
  {
    var lookBack := start - MAX_EVENT_DURATION_SECONDS;
    var a, b, n := BegunBy(history, lookBack - 1), BegunBy(history, end), BegunBy(history, s);
    BegunByMonotone(history, lookBack - 1, s);
    BegunByMonotone(history, s, end);
    SliceShows(history, a, b, s);
    CarriedOver(history, start, s);
  }

  /** An event from before the look-back that is on screen during the day was on screen at its start. */
  lemma CarriedOver(history: seq<Event>, start: int, s: int)
    requires InTimeOrder(history) && start <= s
    ensures var a := BegunBy(history, start - MAX_EVENT_DURATION_SECONDS - 1);
      ShownAmong(history, a, BegunBy(history, s), s) ==
      if Shown(history, s).Some? && Shown(history, s).value.occurredAt < start - MAX_EVENT_DURATION_SECONDS
      then None else Shown(history, s)
    ensures Shown(history, s).Some? && Shown(history, s).value.occurredAt < start - MAX_EVENT_DURATION_SECONDS
            ==> Shown(history, start) == Shown(history, s)
  {
    var n := BegunBy(history, s);
    if n > 0 && history[n - 1].occurredAt < start - MAX_EVENT_DURATION_SECONDS {
      BegunByAt(history, start - MAX_EVENT_DURATION_SECONDS - 1, n);
      BegunByAt(history, start, n);
    }
  }

  ghost predicate MatchesHistory(history: seq<Event>, events: seq<Event>, start: int, end: int) {
    forall s :: CategoryAt(Segments(events, start, end), s) == ShownCategory(history, start, end, s)
  }

  lemma ReadMatchesIffCleanStart(history: seq<Event>, start: int, end: int)
    requires InTimeOrder(history) && start < end
    ensures MatchesHistory(history, DayRead(history, start, end), start, end) <==> CleanStart(history, start)
  {
    var events := DayRead(history, start, end);
    DayReadShows(history, start, end, start);
    SegmentsDenote(events, start, end);
    if CleanStart(history, start) {
      forall s ensures CategoryAt(Segments(events, start, end), s) == ShownCategory(history, start, end, s) {
        if start <= s < end {
          DayReadShows(history, start, end, s);
        }
      }
    } else {
      assert CategoryAt(Segments(events, start, end), start) != ShownCategory(history, start, end, start);
    }
  }

  lemma WholeDayIsDayRead(history: seq<Event>, now: int, offset: int, date: int)
    requires InTimeOrder(history) && date <= Today(now, offset)
    ensures var day := ReadWholeDay(history, now, offset, date);
      && day.start <= day.end == Min(DayStart(date + 1, offset), now)
      && day.events == DayRead(history, day.start, day.end)
  {
    var a, b := ReadIsSlice(history, now, offset, date, |history| + 1);
  }

  /** Exactly when a day's own read tells the day as the whole history does: when nothing that began
      before the read's look-back is on screen at local midnight. */
  lemma DayMatchesIffCleanStart(history: seq<Event>, now: int, offset: int, date: int)
    requires InTimeOrder(history) && date <= Today(now, offset)
    requires DayStart(date, offset) < now
    ensures var day := ReadWholeDay(history, now, offset, date);
      MatchesHistory(history, day.events, day.start, day.end) <==> CleanStart(history, day.start)
  {
    var day := ReadWholeDay(history, now, offset, date);
    WholeDayIsDayRead(history, now, offset, date);
    ReadMatchesIffCleanStart(history, day.start, day.end);
  }

  /** When event `i` leaves the screen: its dwell ends, the next event begins, or it is still `now`. */
  function OffScreenAt(history: seq<Event>, i: nat, now: int): int
    requires i < |history|
  {
    var e := history[i];
    var until := Min(NextAt(history, i, now), now);
    if e.durationSeconds > 0 then Min(e.occurredAt + DwellSeconds(e.durationSeconds), until) else until
  }

  /** No event has been on screen for longer than the look-back. */
  ghost predicate BoundedSpans(history: seq<Event>, now: int) {
    forall i :: 0 <= i < |history| ==>
      OffScreenAt(history, i, now) - history[i].occurredAt <= 1800
  }

  /** If no event has been on screen for longer than the look-back, every day so far starts clean. */
  lemma BoundedSpansStartClean(history: seq<Event>, start: int, now: int)
    requires InTimeOrder(history) && BoundedSpans(history, now) && start <= now
    ensures CleanStart(history, start)
  {
    var n := BegunBy(history, start);
    if n > 0 && StillOn(history[n - 1], start) {
      assert OffScreenAt(history, n - 1, now) >= start;
    }
  }

  /** One event with no reported dwell, begun 2000 s before midnight and on screen since: the day's read
      starts 1800 s before midnight, misses it, and shows nothing all day. */
  lemma LongDwellIsMissed(e: Event)
    requires e.occurredAt == 84400 && e.durationSeconds == 0
    ensures var history, day := [e], ReadDay([e], 90000, 0, 1, MAX_DAY_EVENTS);
      && day.start == 86400 && day.end == 90000 && !day.truncated && DaySegments(day) == []
      && ShownCategory(history, day.start, day.end, day.start) == Some(SafeCategory(e))
  {
    var history := [e];
    assert Today(90000, 0) == 1;
    EventsBetweenIsSlice(history, 84600, 90000, MAX_DAY_EVENTS);
    BegunByAt(history, 84599, 1);
    BegunByAt(history, 90000, 1);
    BegunByAt(history, 86400, 1);
    assert EventsBetween(history, 84600, 90000, MAX_DAY_EVENTS) == [];
  }

  /** A clean day's segments are the whole-history timeline cut to the day: same boundaries, same
      categories. */
  lemma DayIsClippedHistory(history: seq<Event>, now: int, offset: int, date: int, lo: int, hi: int)
    requires InTimeOrder(history) && date <= Today(now, offset)
    requires lo <= DayStart(date, offset) && Min(DayStart(date + 1, offset), now) <= hi
    ensures var day := ReadWholeDay(history, now, offset, date);
      CleanStart(history, day.start) ==>
        SameShape(DaySegments(day), Clip(Segments(history, lo, hi), day.start, day.end))
  {
    var day := ReadWholeDay(history, now, offset, date);
    WholeDayIsDayRead(history, now, offset, date);
    if day.start < now {
      DayMatchesIffCleanStart(history, now, offset, date);
    } else {
      SegmentsDenote(day.events, day.start, day.end);
    }
    if CleanStart(history, day.start) {
      MatchIsClip(history, day.events, day.start, day.end, lo, hi);
    }
  }

  lemma {:induction false} MatchIsClip(history: seq<Event>, events: seq<Event>, start: int, end: int, lo: int, hi: int)
    requires InTimeOrder(history) && MatchesHistory(history, events, start, end)
    requires lo <= start <= end <= hi
    ensures SameShape(Segments(events, start, end), Clip(Segments(history, lo, hi), start, end))
  {
    var whole := Segments(history, lo, hi);
    var clipped := Clip(whole, start, end);
    SegmentsDenote(events, start, end);
    SegmentsDenote(history, lo, hi);
    ClipTidy(whole, lo, hi, start, end);
    forall s ensures CategoryAt(Segments(events, start, end), s) == CategoryAt(clipped, s) {
      ClipAt(whole, start, end, s);
    }
    TidyIsCanonical(Segments(events, start, end), clipped, start, end);
  }

  // ----- Consecutive days ---------------------------------------------------

  function DayOf(history: seq<Event>, now: int, offset: int): int -> LocalDay {
    date => ReadDay(history, now, offset, date, MAX_DAY_EVENTS)
  }

  function FirstDate(now: int, offset: int, count: nat): int { Today(now, offset) - count + 1 }

  /** The last `count` local days, oldest first. */
  function Days(history: seq<Event>, now: int, offset: int, count: nat): seq<LocalDay> {
    Tabulate(DayOf(history, now, offset), FirstDate(now, offset, count), count)
  }

  /** The day's events are the slice of the store that begins with the look-back, at most `cap` of them. */
  ghost predicate IsSliceRead(history: seq<Event>, now: int, cap: nat, day: LocalDay) {
    var first := BegunBy(history, day.start - 1800 - 1);
    var last := Min(BegunBy(history, Min(day.start + 86400, now)), first + cap);
    && first <= last <= |history| && day.events == history[first..last]
    && (day.truncated <==> last - first == cap)
  }

  lemma ReadIsSliceRead(history: seq<Event>, now: int, offset: int, date: int, cap: nat, day: LocalDay)
    requires InTimeOrder(history) && date <= Today(now, offset) && 0 < cap
    requires day == ReadDay(history, now, offset, date, cap)
    ensures IsSliceRead(history, now, cap, day)
  {
    var a, b := ReadIsSlice(history, now, offset, date, cap);
    assert day.start == DayStart(date, offset);
    assert day.events == history[a..b];
  }

  /** What a day's read tells of a time-ordered store: it is that slice, and a cut of the day read in full. */
  ghost predicate TellsDay(history: seq<Event>, now: int, offset: int, day: LocalDay) {
    && IsSliceRead(history, now, 16384, day)
    && IsCutOf(day, ReadWholeDay(history, now, offset, day.date))
  }

  method LoadDay(history: seq<Event>, now: int, offset: int, date: int) returns (day: LocalDay)
    ensures day == DayOf(history, now, offset)(date)
  {
    var start := DayStart(date, offset);
    var end := Min(start + 86400, now);
    var events := EventsBetween(history, start - MAX_EVENT_DURATION_SECONDS, end, MAX_DAY_EVENTS);
    var truncated := |events| >= MAX_DAY_EVENTS;
    if truncated && |events| > 0 {
      end := Min(events[|events| - 1].occurredAt, end);
    }
    day := LocalDay(date, start, end, date == Today(now, offset), events, truncated);
  }

  ghost predicate AllTell(history: seq<Event>, now: int, offset: int, days: seq<LocalDay>) {
    forall k :: 0 <= k < |days| ==> TellsDay(history, now, offset, days[k])
  }

  lemma {:induction false} TabulateSnoc<T>(g: int -> T, first: int, s: seq<T>, x: T)
    requires s == Tabulate(g, first, |s|) && x == g(first + |s|)
    ensures s + [x] == Tabulate(g, first, |s| + 1)
  {
  }

  /** The first `n` of the days from `first` on. */
  ghost predicate AreDays(days: seq<LocalDay>, history: seq<Event>, now: int, offset: int, first: int, n: int) {
    |days| == n && days == Tabulate(DayOf(history, now, offset), first, |days|)
  }

  lemma OneMoreDay(days: seq<LocalDay>, history: seq<Event>, now: int, offset: int, first: int, n: int, day: LocalDay)
    requires AreDays(days, history, now, offset, first, n) && day == DayOf(history, now, offset)(first + n)
    ensures AreDays(days + [day], history, now, offset, first, n + 1)
  {
    TabulateSnoc(DayOf(history, now, offset), first, days, day);
  }

  method FoldLocalDays(history: seq<Event>, now: int, offset: int, count: int) returns (days: seq<LocalDay>)
    ensures days == Days(history, now, offset, Max(count, 0))
  {
    var today := Today(now, offset);
    ghost var first := today - Max(count, 0) + 1;
    days := [];
    var daysAgo := Max(count, 0);
    while daysAgo > 0
      invariant 0 <= daysAgo
      invariant AreDays(days, history, now, offset, first, Max(count, 0) - daysAgo)
    {
      daysAgo := daysAgo - 1;
      var day := LoadDay(history, now, offset, today - daysAgo);
      OneMoreDay(days, history, now, offset, first, |days|, day);
      days := days + [day];
    }
  }

  lemma {:induction false} TabulateAt<T>(g: int -> T, first: int, k: nat, i: nat)
    requires i < k
    ensures Tabulate(g, first, k)[i] == g(first + i)
  {
    if i < k - 1 {
      TabulateAt(g, first, k - 1, i);
    }
  }

  lemma DayAt(history: seq<Event>, now: int, offset: int, count: nat, k: nat)
    requires k < count
    ensures Days(history, now, offset, count)[k] ==
            ReadDay(history, now, offset, FirstDate(now, offset, count) + k, MAX_DAY_EVENTS)
  {
    TabulateAt(DayOf(history, now, offset), FirstDate(now, offset, count), count, k);
  }

  /** Every day returned is the slice of the store its read names, and agrees with the day read in full up
      to the end it reports. */
  lemma DaysTell(history: seq<Event>, now: int, offset: int, count: nat, days: seq<LocalDay>)
    requires InTimeOrder(history) && days == Days(history, now, offset, count)
    ensures AllTell(history, now, offset, days)
  {
    forall k | 0 <= k < |days| ensures TellsDay(history, now, offset, days[k]) {
      var date := FirstDate(now, offset, count) + k;
      DayAt(history, now, offset, count, k);
      ReadIsSliceRead(history, now, offset, date, MAX_DAY_EVENTS, days[k]);
      CutDayAgrees(history, now, offset, date, MAX_DAY_EVENTS);
    }
  }

  function DaySeconds(p: string -> bool): LocalDay -> nat {
    day => SecondsWhere(DaySegments(day), p)
  }

  predicate ReadsCleanly(history: seq<Event>, day: LocalDay) {
    !day.truncated && CleanStart(history, day.start)
  }

  /** The seconds at which the history shows a category satisfying `p`. */
  function ShownWhere(history: seq<Event>, p: string -> bool): int -> bool {
    s => Shown(history, s).Some? && p(SafeCategory(Shown(history, s).value))
  }

  lemma {:induction false} ReadSecondsAreShown(history: seq<Event>, start: int, end: int, p: string -> bool)
    requires InTimeOrder(history) && start <= end && CleanStart(history, start)
    ensures SecondsWhere(Segments(DayRead(history, start, end), start, end), p) ==
            Count(ShownWhere(history, p), start, end)
  {
    var events := DayRead(history, start, end);
    SegmentSecondsAreShown(events, start, end, p);
    if start < end {
      DayReadShows(history, start, end, start);
    }
    forall s | start <= s < end ensures Shown(events, s) == Shown(history, s) {
      DayReadShows(history, start, end, s);
    }
    CountSame(WindowWhere(SortByTime(events), start, end, p),
              ShownWhere(history, p), start, end);
  }

  lemma DaySecondsAreShown(history: seq<Event>, now: int, offset: int, date: int, p: string -> bool)
    requires InTimeOrder(history) && date <= Today(now, offset)
    requires ReadsCleanly(history, ReadDay(history, now, offset, date, MAX_DAY_EVENTS))
    ensures DaySeconds(p)(ReadDay(history, now, offset, date, MAX_DAY_EVENTS)) ==
            Count(ShownWhere(history, p), DayStart(date, offset), Min(DayStart(date + 1, offset), now))
  {
    CutDayAgrees(history, now, offset, date, MAX_DAY_EVENTS);
    WholeDayIsDayRead(history, now, offset, date);
    ReadSecondsAreShown(history, DayStart(date, offset), Min(DayStart(date + 1, offset), now), p);
  }

  predicate CleanDay(history: seq<Event>, now: int, offset: int, date: int) {
    ReadsCleanly(history, ReadDay(history, now, offset, date, MAX_DAY_EVENTS))
  }

  function MidnightOrNow(now: int, offset: int): int -> int {
    date => Min(DayStart(date, offset), now)
  }

  lemma DayCountsBetween(history: seq<Event>, now: int, offset: int, date: int, p: string -> bool)
    requires InTimeOrder(history) && date <= Today(now, offset) && CleanDay(history, now, offset, date)
    ensures CountsBetween(Compose(DaySeconds(p), DayOf(history, now, offset)), ShownWhere(history, p),
                          MidnightOrNow(now, offset), date)
  {
    DaySecondsAreShown(history, now, offset, date, p);
    CountsBetweenIntro(DaySeconds(p), DayOf(history, now, offset), ShownWhere(history, p), MidnightOrNow(now, offset),
                       date, ReadDay(history, now, offset, date, MAX_DAY_EVENTS),
                       DayStart(date, offset), Min(DayStart(date + 1, offset), now));
  }

  lemma {:induction false} DaysCount(history: seq<Event>, now: int, offset: int, count: nat, p: string -> bool)
    requires InTimeOrder(history) && 0 < count
    requires forall date :: FirstDate(now, offset, count) <= date <= Today(now, offset) ==>
               CleanDay(history, now, offset, date)
    ensures SumOver(Days(history, now, offset, count), DaySeconds(p)) ==
            Count(ShownWhere(history, p), DayStart(FirstDate(now, offset, count), offset), now)
  {
    var first := FirstDate(now, offset, count);
    var g, f, q := DayOf(history, now, offset), DaySeconds(p), ShownWhere(history, p);
    forall date | first <= date < first + count
      ensures CountsBetween(Compose(f, g), q, MidnightOrNow(now, offset), date)
    {
      DayCountsBetween(history, now, offset, date, p);
    }
    SumTabulate(g, f, first, count);
    CountsJoin(Compose(f, g), q, MidnightOrNow(now, offset), first, count);
  }

  /** Consecutive clean days add up: nothing is lost or counted twice at midnight. The total is the
      total of the one timeline built over the whole stretch. */
  lemma DaysAddUp(history: seq<Event>, now: int, offset: int, count: nat, p: string -> bool)
    requires InTimeOrder(history) && 0 < count
    requires forall date :: FirstDate(now, offset, count) <= date <= Today(now, offset) ==>
               CleanDay(history, now, offset, date)
    ensures SumOver(Days(history, now, offset, count), DaySeconds(p)) ==
            SecondsWhere(Segments(history, DayStart(FirstDate(now, offset, count), offset), now), p)
  {
    var start := DayStart(FirstDate(now, offset, count), offset);
    DaysCount(history, now, offset, count, p);
    SegmentSecondsAreShown(history, start, now, p);
    CountSame(WindowWhere(history, start, now, p), ShownWhere(history, p), start, now);
  }

  // ----- Bounded histories --------------------------------------------------

  ghost predicate ReadInFull(history: seq<Event>, now: int, offset: int, count: nat) {
    forall date :: FirstDate(now, offset, count) <= date <= Today(now, offset) ==>
      !ReadDay(history, now, offset, date, MAX_DAY_EVENTS).truncated
  }

  /** The day's segments are those of `whole` cut to the day: same boundaries, same categories. */
  ghost predicate IsPartOf(day: LocalDay, whole: seq<Segment>) {
    SameShape(DaySegments(day), Clip(whole, day.start, day.end))
  }

  lemma BoundedDayIsPart(history: seq<Event>, now: int, offset: int, date: int, lo: int, day: LocalDay)
    requires InTimeOrder(history) && BoundedSpans(history, now) && date <= Today(now, offset)
    requires lo <= DayStart(date, offset)
    requires day == ReadDay(history, now, offset, date, MAX_DAY_EVENTS) && !day.truncated
    ensures ReadsCleanly(history, day) && IsPartOf(day, Segments(history, lo, now))
  {
    BoundedSpansStartClean(history, DayStart(date, offset), now);
    CutDayAgrees(history, now, offset, date, MAX_DAY_EVENTS);
    DayIsClippedHistory(history, now, offset, date, lo, now);
  }

  ghost predicate ArePartsOf(days: seq<LocalDay>, whole: seq<Segment>) {
    forall k :: 0 <= k < |days| ==> IsPartOf(days[k], whole)
  }

  lemma BoundedDaysAreParts(history: seq<Event>, now: int, offset: int, count: nat, lo: int, days: seq<LocalDay>)
    requires InTimeOrder(history) && BoundedSpans(history, now) && ReadInFull(history, now, offset, count)
    requires days == Days(history, now, offset, count) && lo == DayStart(FirstDate(now, offset, count), offset)
    ensures ArePartsOf(days, Segments(history, lo, now))
  {
    var first := FirstDate(now, offset, count);
    forall k | 0 <= k < |days| ensures IsPartOf(days[k], Segments(history, lo, now)) {
      DayAt(history, now, offset, count, k);
      BoundedDayIsPart(history, now, offset, first + k, lo, days[k]);
    }
  }

  lemma BoundedDaysAreClean(history: seq<Event>, now: int, offset: int, count: nat)
    requires InTimeOrder(history) && BoundedSpans(history, now) && ReadInFull(history, now, offset, count)
    ensures forall date :: FirstDate(now, offset, count) <= date <= Today(now, offset) ==>
              CleanDay(history, now, offset, date)
  {
    forall date | FirstDate(now, offset, count) <= date <= Today(now, offset)
      ensures CleanDay(history, now, offset, date)
    {
      var day := ReadDay(history, now, offset, date, MAX_DAY_EVENTS);
      BoundedDayIsPart(history, now, offset, date, DayStart(date, offset), day);
    }
  }

  /** Main result: with no event on screen for longer than 1800 s and no read at its cap, every day returned is
      part of the one timeline over the whole stretch, and the days' seconds add up to its seconds. */
  lemma BoundedHistoryAddsUp(history: seq<Event>, now: int, offset: int, count: nat, p: string -> bool)
    requires InTimeOrder(history) && BoundedSpans(history, now) && 0 < count
    requires ReadInFull(history, now, offset, count)
    ensures var days := Days(history, now, offset, count);
            var whole := Segments(history, DayStart(FirstDate(now, offset, count), offset), now);
      && ArePartsOf(days, whole)
      && SumOver(days, DaySeconds(p)) == SecondsWhere(whole, p)
  {
    BoundedDaysAreClean(history, now, offset, count);
    DaysAddUp(history, now, offset, count, p);
    BoundedDaysAreParts(history, now, offset, count, DayStart(FirstDate(now, offset, count), offset),
                        Days(history, now, offset, count));
  }

  // ----- The calendar of the days returned ----------------------------------

  /** The days returned are consecutive local days, each from local midnight until the next or `now`; the last
      one, and only it, is today, and holds `now`. */
  lemma DaysAreConsecutive(history: seq<Event>, now: int, offset: int, count: nat, k: nat)
    requires k < count
    ensures var days := Days(history, now, offset, count);
      && (days[k].start + offset) % 86400 == 0
      && days[k].start == days[count - 1].start - 86400 * (count - 1 - k)
      && days[count - 1].start <= now < days[count - 1].start + 86400
      && (days[k].isToday <==> k == count - 1)
      && (!days[k].truncated ==> days[k].end == if k == count - 1 then now else days[k].start + 86400)
  {
    DayAt(history, now, offset, count, k);
    DayAt(history, now, offset, count, count - 1);
    assert DayStart(FirstDate(now, offset, count) + k, offset) + offset == 86400 * (FirstDate(now, offset, count) + k);
  }
}
