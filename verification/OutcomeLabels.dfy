/** The pre-registered outcome labels of one decision, computed from a block's observation ledger, and
    the two checks the analysis holds an exported label row to. */
module OutcomeLabels {
  import opened Prelude
  import opened Sorting

  // The horizon, its threshold, and the two secondary windows, in seconds.
  const PRIMARY_HORIZON_SECONDS: nat := 900
  const PRIMARY_THRESHOLD_SECONDS: nat := 600
  const DEPARTURE_FREE_SECONDS: nat := 600
  const SUSTAINED_RUN_SECONDS: nat := 300

  const SERVICE_CATEGORIES: seq<string> := [
    "FOCUS_WORK", "PASSIVE_CONSUMPTION", "SOCIAL_FEED", "COMMUNICATION",
    "TASK_MANAGEMENT", "REFERENCE", "SYSTEM", "UNLOGGED"]

  datatype Observation = Observation(
    occurredAt: int,
    endedAt: Option<int>,
    category: string,
    status: string,
    confidence: string)

  datatype Block = Block(endedAt: Option<int>, phase: string, totalPausedSeconds: int, recoveredAfterRestart: bool)

  datatype CensorReason = Uncensored | BlockEnded | ExportEnded | ObserverGap

  datatype GapCause = Pause | FinalDwell | OtherCause

  datatype Labels = Labels(
    censorReason: CensorReason,
    gapCause: Option<GapCause>,
    sustainedAnchor: Option<bool>,
    departureFree: Option<bool>,
    secondsToReturn: Option<nat>,
    departureCategory: Option<string>)

  // ----- The ledger ---------------------------------------------------------

  predicate IsConfident(category: string, status: string, confidence: string) {
    var lower := Lower(category);
    && status == "classified"
    && (confidence == "high" || confidence == "medium")
    && lower != "system" && lower != "unclassified" && lower != "unlogged"
  }

  datatype Row = Row(start: int, end: Option<int>, category: string, confident: bool) {
    /** A closed row covers `[start, end)`; an open one covers nothing yet. */
    predicate Covers(s: int) { end.Some? && start <= s < end.value }
  }

  function ReadRow(o: Observation): Row {
    Row(o.occurredAt, o.endedAt, Upper(o.category), IsConfident(o.category, o.status, o.confidence))
  }

  function ReadRows(observations: seq<Observation>): (rows: seq<Row>)
    ensures |rows| == |observations|
    ensures forall i :: 0 <= i < |rows| ==> rows[i] == ReadRow(observations[i])
  {
    seq(|observations|, i requires 0 <= i < |observations| => ReadRow(observations[i]))
  }

  predicate BeganNoLater(a: Observation, b: Observation) { a.occurredAt <= b.occurredAt }

  /** The ledger's order: time, then position. */
  function Ledger(observations: seq<Observation>): seq<Row> {
    ReadRows(SortBy(observations, BeganNoLater))
  }

  predicate Covered(rows: seq<Row>, s: int) {
    exists i :: 0 <= i < |rows| && rows[i].Covers(s)
  }

  predicate Anchored(rows: seq<Row>, anchor: string, s: int) {
    exists i :: 0 <= i < |rows| && rows[i].confident && rows[i].category == anchor && rows[i].Covers(s)
  }

  // ----- The definition, read off the pre-registration ----------------------

  function HorizonEnd(t: int): int { t + PRIMARY_HORIZON_SECONDS }

  /** The category of the latest confident row among the first `n` that began by `t`. */
  function LatestConfident(rows: seq<Row>, t: int, n: nat): Option<string>
    requires n <= |rows|
  {
    if n == 0 then None
    else if rows[n - 1].confident && rows[n - 1].start <= t then Some(rows[n - 1].category)
    else LatestConfident(rows, t, n - 1)
  }

  function DepartureCategory(rows: seq<Row>, anchor: string, t: int): Option<string> {
    var latest := LatestConfident(rows, t, |rows|);
    if latest.None? || latest.value == anchor then None
    else if latest.value in SERVICE_CATEGORIES then latest
    else Some("unrecognized")
  }

  predicate OpenInside(rows: seq<Row>, horizonEnd: int) {
    exists i :: 0 <= i < |rows| && rows[i].end.None? && rows[i].start < horizonEnd
  }

  predicate FullyCovered(rows: seq<Row>, t: int) {
    forall s :: t <= s < HorizonEnd(t) ==> Covered(rows, s)
  }

  function CensorOf(rows: seq<Row>, t: int, blockEndedAt: Option<int>, exportedAt: int): CensorReason {
    if blockEndedAt.Some? && blockEndedAt.value < HorizonEnd(t) then BlockEnded
    else if blockEndedAt.None? && (HorizonEnd(t) > exportedAt || OpenInside(rows, HorizonEnd(t))) then ExportEnded
    else if !FullyCovered(rows, t) then ObserverGap
    else Uncensored
  }

  predicate AllBegunBy(rows: seq<Row>, s: int) {
    forall i :: 0 <= i < |rows| ==> rows[i].start <= s
  }

  /** Every unobserved second comes after the block's last row began. */
  predicate OnlyFinalDwell(rows: seq<Row>, t: int) {
    rows != [] && forall s :: t <= s < HorizonEnd(t) && !Covered(rows, s) ==> AllBegunBy(rows, s)
  }

  function CauseOf(rows: seq<Row>, t: int, block: Block): GapCause {
    if block.endedAt.Some? && OnlyFinalDwell(rows, t) then FinalDwell
    else if (block.totalPausedSeconds > 0 || block.phase == "paused") && !block.recoveredAfterRestart then Pause
    else OtherCause
  }

  /** The category of the last confident row before `n`. */
  function PreviousConfident(rows: seq<Row>, n: nat): Option<string>
    requires n <= |rows|
  {
    if n == 0 then None
    else if rows[n - 1].confident then Some(rows[n - 1].category)
    else PreviousConfident(rows, n - 1)
  }

  /** Row `j` leaves the anchor, beginning after the decision and within ten minutes of it. */
  predicate IsDeparture(rows: seq<Row>, anchor: string, t: int, j: int) {
    && 0 <= j < |rows|
    && rows[j].confident
    && rows[j].category != anchor
    && PreviousConfident(rows, j) == Some(anchor)
    && t < rows[j].start <= t + DEPARTURE_FREE_SECONDS
  }

  predicate Departs(rows: seq<Row>, anchor: string, t: int, n: int) {
    exists j :: 0 <= j < n && IsDeparture(rows, anchor, t, j)
  }

  /** The departures among the first `n` rows. */
  function Departures(rows: seq<Row>, anchor: string, t: int, n: int): set<int> {
    set j | 0 <= j < n && IsDeparture(rows, anchor, t, j)
  }

  lemma DeparturesStep(rows: seq<Row>, anchor: string, t: int, n: nat)
    ensures Departures(rows, anchor, t, n + 1) ==
            Departures(rows, anchor, t, n) + if IsDeparture(rows, anchor, t, n) then {n} else {}
    ensures |Departures(rows, anchor, t, n + 1)| ==
            |Departures(rows, anchor, t, n)| + if IsDeparture(rows, anchor, t, n) then 1 else 0
  {
  }

  function AnchoredSecond(rows: seq<Row>, anchor: string): int -> bool {
    s => Anchored(rows, anchor, s)
  }

  predicate RunAt(p: int -> bool, s: int) {
    forall u :: s <= u < s + SUSTAINED_RUN_SECONDS ==> p(u)
  }

  /** The first offset from `k` on at which a sustained run starts inside the horizon. */
  function FirstRun(p: int -> bool, t: int, k: nat): Option<nat>
    requires k <= PRIMARY_HORIZON_SECONDS - SUSTAINED_RUN_SECONDS + 1
    decreases PRIMARY_HORIZON_SECONDS - k
  {
    if k > PRIMARY_HORIZON_SECONDS - SUSTAINED_RUN_SECONDS then None
    else if RunAt(p, t + k) then Some(k)
    else FirstRun(p, t, k + 1)
  }

  function LabelRows(t: int, anchor: string, block: Block, exportedAt: int, rows: seq<Row>): Labels {
    var departure := DepartureCategory(rows, anchor, t);
    var reason := CensorOf(rows, t, block.endedAt, exportedAt);
    match reason
    case ObserverGap => Labels(reason, Some(CauseOf(rows, t, block)), None, None, None, departure)
    case Uncensored =>
      var p := AnchoredSecond(rows, anchor);
      Labels(reason, None,
             Some(Count(p, t, HorizonEnd(t)) >= PRIMARY_THRESHOLD_SECONDS),
             Some(!Departs(rows, anchor, t, |rows|)),
             FirstRun(p, t, 0),
             departure)
    case _ => Labels(reason, None, None, None, None, departure)
  }

  function Label(t: int, anchorCategory: string, block: Block, exportedAt: int, observations: seq<Observation>)
    : Labels
  {
    LabelRows(t, Upper(anchorCategory), block, exportedAt, Ledger(observations))
  }

  // ----- The computation, as the script performs it -------------------------

  method SumTrue(flags: seq<bool>, ghost p: int -> bool, ghost t: int) returns (n: nat)
    requires forall i :: 0 <= i < |flags| ==> flags[i] == p(t + i)
    ensures n == Count(p, t, t + |flags|)
  {
    n := 0;
    for i := 0 to |flags|
      invariant n == Count(p, t, t + i)
    {
      n := n + (if flags[i] then 1 else 0);
    }
  }

  method CountDepartures(rows: seq<Row>, anchor: string, t: int) returns (departures: nat)
    ensures departures == |Departures(rows, anchor, t, |rows|)|
    ensures departures == 0 <==> !Departs(rows, anchor, t, |rows|)
  {
    departures := 0;
    var previous: Option<string> := None;
    for i := 0 to |rows|
      invariant previous == PreviousConfident(rows, i)
      invariant departures == |Departures(rows, anchor, t, i)|
    {
      DeparturesStep(rows, anchor, t, i);
      var r := rows[i];
      if !r.confident {
        continue;
      }
      if r.category != anchor && previous == Some(anchor) && t < r.start <= t + DEPARTURE_FREE_SECONDS {
        departures := departures + 1;
      }
      previous := Some(r.category);
    }
    ghost var all := Departures(rows, anchor, t, |rows|);
    if Departs(rows, anchor, t, |rows|) {
      ghost var j :| 0 <= j < |rows| && IsDeparture(rows, anchor, t, j);
      assert j in all;
    } else {
      assert all == {};
    }
  }

  ghost predicate RunIn(flags: seq<bool>, k: int) {
    0 <= k && k + SUSTAINED_RUN_SECONDS <= |flags| &&
    forall u :: k <= u < k + SUSTAINED_RUN_SECONDS ==> flags[u]
  }

  /** The scan for the first run of 300, as the first index a run starts at. */
  method ScanForRun(flags: seq<bool>) returns (found: Option<nat>)
    ensures found.Some? ==> RunIn(flags, found.value) && forall k :: 0 <= k < found.value ==> !RunIn(flags, k)
    ensures found.None? ==> forall k :: !RunIn(flags, k)
  {
    var runStart: Option<nat> := None;
    for index := 0 to |flags|
      invariant runStart.Some? ==> runStart.value < index && index - runStart.value < SUSTAINED_RUN_SECONDS
      invariant runStart.Some? ==> forall u :: runStart.value <= u < index ==> flags[u]
      invariant forall k {:trigger RunIn(flags, k)} ::
        0 <= k < (if runStart.Some? then runStart.value else index) ==> !RunIn(flags, k)
    {
      if !flags[index] {
        forall k | 0 <= k <= index ensures !RunIn(flags, k) {
          if runStart.Some? && runStart.value <= k && k + SUSTAINED_RUN_SECONDS <= |flags| {
            assert k <= index < k + SUSTAINED_RUN_SECONDS;
          }
        }
        runStart := None;
        continue;
      }
      if runStart.None? {
        runStart := Some(index);
      }
      if index - runStart.value + 1 >= SUSTAINED_RUN_SECONDS {
        return runStart;
      }
    }
    forall k ensures !RunIn(flags, k) {
      if runStart.Some? && k >= runStart.value {
        assert k + SUSTAINED_RUN_SECONDS > |flags|;
      }
    }
    found := None;
  }

  method MeasureHorizon(rows: seq<Row>, anchor: string, t: int)
    returns (sustained: bool, free: bool, seconds: Option<nat>)
    ensures sustained <==> Count(AnchoredSecond(rows, anchor), t, HorizonEnd(t)) >= PRIMARY_THRESHOLD_SECONDS
    ensures free <==> !Departs(rows, anchor, t, |rows|)
    ensures seconds == FirstRun(AnchoredSecond(rows, anchor), t, 0)
  {
    var inAnchor := seq(PRIMARY_HORIZON_SECONDS, i => Anchored(rows, anchor, t + i));
    ghost var p := AnchoredSecond(rows, anchor);
    var anchoredSeconds := SumTrue(inAnchor, p, t);
    sustained := anchoredSeconds >= PRIMARY_THRESHOLD_SECONDS;
    var departures := CountDepartures(rows, anchor, t);
    free := departures == 0;
    seconds := ScanForRun(inAnchor);
    ScanIsFirstRun(inAnchor, p, t, seconds, 0);
  }

  method LabelDecision(t: int, anchorCategory: string, block: Block, exportedAt: int, observations: seq<Observation>)
    returns (labels: Labels)
    ensures labels == Label(t, anchorCategory, block, exportedAt, observations)
  {
    var horizonEnd, anchor := HorizonEnd(t), Upper(anchorCategory);
    var rows := Ledger(observations);
    var departure := DepartureCategory(rows, anchor, t);
    labels := Labels(Uncensored, None, None, None, None, departure);
    var covered := seq(PRIMARY_HORIZON_SECONDS, i => Covered(rows, t + i));

    if block.endedAt.Some? && block.endedAt.value < horizonEnd {
      labels := labels.(censorReason := BlockEnded);
    } else if block.endedAt.None? && (horizonEnd > exportedAt || OpenInside(rows, horizonEnd)) {
      labels := labels.(censorReason := ExportEnded);
    } else if exists i :: 0 <= i < |covered| && !covered[i] {
      ghost var gap :| 0 <= gap < |covered| && !covered[gap];
      assert !Covered(rows, t + gap);
      labels := labels.(censorReason := ObserverGap, gapCause := Some(CauseOf(rows, t, block)));
    } else {
      forall s | t <= s < horizonEnd ensures Covered(rows, s) {
        assert covered[s - t];
      }
    }
    if labels.censorReason != Uncensored {
      return;
    }

    var sustained, free, seconds := MeasureHorizon(rows, anchor, t);
    labels := labels.(
      sustainedAnchor := Some(sustained),
      departureFree := Some(free),
      secondsToReturn := seconds);
  }

  lemma RunInIsRunAt(flags: seq<bool>, p: int -> bool, t: int, k: nat)
    requires |flags| == PRIMARY_HORIZON_SECONDS && forall i :: 0 <= i < |flags| ==> flags[i] == p(t + i)
    requires k <= PRIMARY_HORIZON_SECONDS - SUSTAINED_RUN_SECONDS
    ensures RunIn(flags, k) <==> RunAt(p, t + k)
  {
    if RunIn(flags, k) {
      forall u | t + k <= u < t + k + SUSTAINED_RUN_SECONDS ensures p(u) {
        assert flags[u - t];
      }
    }
  }

  lemma {:induction false} ScanIsFirstRun(flags: seq<bool>, p: int -> bool, t: int, found: Option<nat>, k: nat)
    requires |flags| == PRIMARY_HORIZON_SECONDS && forall i :: 0 <= i < |flags| ==> flags[i] == p(t + i)
    requires found.Some? ==> RunIn(flags, found.value) && forall j :: 0 <= j < found.value ==> !RunIn(flags, j)
    requires found.None? ==> forall j :: !RunIn(flags, j)
    requires k <= if found.Some? then found.value else PRIMARY_HORIZON_SECONDS - SUSTAINED_RUN_SECONDS + 1
    ensures FirstRun(p, t, k) == found
    decreases PRIMARY_HORIZON_SECONDS - k
  {
    if k <= PRIMARY_HORIZON_SECONDS - SUSTAINED_RUN_SECONDS {
      RunInIsRunAt(flags, p, t, k);
      if found != Some(k) {
        ScanIsFirstRun(flags, p, t, found, k + 1);
      }
    }
  }

  // ----- Time to sustained return -------------------------------------------

  lemma {:induction false} FirstRunIsLeast(p: int -> bool, t: int, k: nat)
    requires k <= PRIMARY_HORIZON_SECONDS - SUSTAINED_RUN_SECONDS + 1
    ensures var r := FirstRun(p, t, k);
      && (r.Some? ==> k <= r.value <= PRIMARY_HORIZON_SECONDS - SUSTAINED_RUN_SECONDS && RunAt(p, t + r.value)
                      && forall s :: t + k <= s < t + r.value ==> !RunAt(p, s))
      && (r.None? ==> forall s :: t + k <= s <= HorizonEnd(t) - SUSTAINED_RUN_SECONDS ==> !RunAt(p, s))
    decreases PRIMARY_HORIZON_SECONDS - k
  {
    if k <= PRIMARY_HORIZON_SECONDS - SUSTAINED_RUN_SECONDS && !RunAt(p, t + k) {
      FirstRunIsLeast(p, t, k + 1);
    }
  }

  /** The time to sustained return is the least start of 300 consecutive anchored seconds inside the
      horizon, so 0 to 600; an uncensored decision has none exactly when there is no such run, and a
      censored one never has it. */
  lemma ReturnIsLeastRun(
    t: int, anchorCategory: string, block: Block, exportedAt: int, observations: seq<Observation>)
    ensures var labels := Label(t, anchorCategory, block, exportedAt, observations);
            var p := AnchoredSecond(Ledger(observations), Upper(anchorCategory));
      && (labels.secondsToReturn.Some? ==>
            && labels.censorReason == Uncensored
            && labels.secondsToReturn.value <= PRIMARY_HORIZON_SECONDS - SUSTAINED_RUN_SECONDS
            && RunAt(p, t + labels.secondsToReturn.value)
            && forall s :: t <= s < t + labels.secondsToReturn.value ==> !RunAt(p, s))
      && (labels.censorReason == Uncensored ==>
            (labels.secondsToReturn.None? <==>
             forall s :: t <= s <= HorizonEnd(t) - SUSTAINED_RUN_SECONDS ==> !RunAt(p, s)))
  {
    FirstRunIsLeast(AnchoredSecond(Ledger(observations), Upper(anchorCategory)), t, 0);
  }

  // ----- Finality -----------------------------------------------------------

  /** `later` is the ledger some time on: rows may have been closed, and new ones begun past the horizon. */
  ghost predicate Grows(observations: seq<Observation>, later: seq<Observation>, horizonEnd: int) {
    && |observations| <= |later|
    && (forall i :: 0 <= i < |observations| ==>
          || later[i] == observations[i]
          || (observations[i].endedAt.None? && later[i] == observations[i].(endedAt := later[i].endedAt)))
    && (forall i :: |observations| <= i < |later| ==> later[i].occurredAt >= horizonEnd)
  }

  function BeginsBefore(bound: int): Observation -> bool {
    (o: Observation) => o.occurredAt < bound
  }

  lemma {:induction false} EarlyRowsStay(observations: seq<Observation>, later: seq<Observation>, horizonEnd: int)
    requires Grows(observations, later, horizonEnd)
    requires forall i :: 0 <= i < |observations| && observations[i].endedAt.None? ==>
               observations[i].occurredAt >= horizonEnd
    ensures Filter(later, BeginsBefore(horizonEnd)) == Filter(observations, BeginsBefore(horizonEnd))
  {
    if |later| > |observations| {
      EarlyRowsStay(observations, later[..|later| - 1], horizonEnd);
    } else if later != [] {
      EarlyRowsStay(observations[..|later| - 1], later[..|later| - 1], horizonEnd);
    }
  }

  lemma BeganNoLaterIsTotal()
    ensures TotalPreorder(BeganNoLater)
  {
    assert forall x: Observation, y: Observation :: Comparable(BeganNoLater, x, y);
    assert forall x: Observation, y: Observation, z: Observation :: Chains(BeganNoLater, x, y, z);
  }

  lemma ReadRowsPrefix(observations: seq<Observation>, k: nat)
    requires k <= |observations|
    ensures ReadRows(observations)[..k] == ReadRows(observations[..k])
  {
  }

  /** Sorted, the observations that begin before a bound come first, and in the order they sort to alone. */
  lemma EarlyFirst(observations: seq<Observation>, bound: int, sorted: seq<Observation>) returns (k: nat)
    requires sorted == SortBy(observations, BeganNoLater)
    ensures k <= |sorted| && sorted[..k] == SortBy(Filter(observations, BeginsBefore(bound)), BeganNoLater)
    ensures forall i :: k <= i < |sorted| ==> sorted[i].occurredAt >= bound
  {
    BeganNoLaterIsTotal();
    SortBySorted(observations, BeganNoLater);
    SortFiltered(observations, BeganNoLater, BeginsBefore(bound));
    k := EarlyPrefix(sorted, bound);
  }

  /** In ledger order the rows that begin before a bound come first. */
  lemma EarlyRowsFirst(observations: seq<Observation>, bound: int) returns (k: nat)
    ensures k <= |observations| && |Ledger(observations)| == |observations|
    ensures Ledger(observations)[..k] == ReadRows(SortBy(Filter(observations, BeginsBefore(bound)), BeganNoLater))
    ensures forall i :: k <= i < |observations| ==> Ledger(observations)[i].start >= bound
  {
    var sorted := SortBy(observations, BeganNoLater);
    k := EarlyFirst(observations, bound, sorted);
    ReadRowsPrefix(sorted, k);
  }

  lemma EarlyPrefix(sorted: seq<Observation>, bound: int) returns (k: nat)
    requires Sorted(sorted, BeganNoLater)
    ensures k <= |sorted| && Filter(sorted, BeginsBefore(bound)) == sorted[..k]
    ensures forall i :: k <= i < |sorted| ==> sorted[i].occurredAt >= bound
  {
    k := 0;
    while k < |sorted| && sorted[k].occurredAt < bound
      invariant k <= |sorted| && forall i :: 0 <= i < k ==> sorted[i].occurredAt < bound
    {
      k := k + 1;
    }
    forall i | k <= i < |sorted| ensures sorted[i].occurredAt >= bound {
      assert i == k || BeganNoLater(sorted[k], sorted[i]);
    }
    FilterIsSlice(sorted, BeginsBefore(bound), 0, k);
    assert sorted[0..k] == sorted[..k];
  }

  /** Two ledgers with the same rows before the horizon end. */
  ghost predicate SameUntil(rows: seq<Row>, later: seq<Row>, k: nat, bound: int) {
    && k <= |rows| && k <= |later|
    && rows[..k] == later[..k]
    && (forall i :: k <= i < |rows| ==> rows[i].start >= bound)
    && (forall i :: k <= i < |later| ==> later[i].start >= bound)
  }

  lemma SameUntilSymmetric(rows: seq<Row>, later: seq<Row>, k: nat, bound: int)
    requires SameUntil(rows, later, k, bound)
    ensures SameUntil(later, rows, k, bound)
  {
  }

  lemma SecondsStay(rows: seq<Row>, later: seq<Row>, k: nat, bound: int, anchor: string, s: int)
    requires SameUntil(rows, later, k, bound) && s < bound
    ensures Covered(rows, s) ==> Covered(later, s)
    ensures Anchored(rows, anchor, s) ==> Anchored(later, anchor, s)
  {
    if Covered(rows, s) {
      var i :| 0 <= i < |rows| && rows[i].Covers(s);
      assert rows[..k][i] == later[..k][i];
      assert later[i].Covers(s);
    }
    if Anchored(rows, anchor, s) {
      var i :| 0 <= i < |rows| && rows[i].confident && rows[i].category == anchor && rows[i].Covers(s);
      assert rows[..k][i] == later[..k][i];
      assert later[i].Covers(s) && later[i].confident && later[i].category == anchor;
    }
  }

  lemma OpenInsideStays(rows: seq<Row>, later: seq<Row>, k: nat, bound: int)
    requires SameUntil(rows, later, k, bound)
    ensures OpenInside(rows, bound) ==> OpenInside(later, bound)
  {
    if OpenInside(rows, bound) {
      var i :| 0 <= i < |rows| && rows[i].end.None? && rows[i].start < bound;
      assert rows[..k][i] == later[..k][i];
      assert later[i].end.None? && later[i].start < bound;
    }
  }

  lemma {:induction false} LatestStays(rows: seq<Row>, later: seq<Row>, k: nat, bound: int, t: int, n: nat)
    requires SameUntil(rows, later, k, bound) && t < bound && n <= |rows|
    ensures LatestConfident(rows, t, n) == LatestConfident(later, t, if n <= k then n else k)
  {
    if n > 0 {
      LatestStays(rows, later, k, bound, t, n - 1);
      if n <= k {
        assert rows[..k][n - 1] == later[..k][n - 1];
      }
    }
  }

  lemma {:induction false} PreviousStays(rows: seq<Row>, later: seq<Row>, k: nat, bound: int, n: nat)
    requires SameUntil(rows, later, k, bound) && n <= k
    ensures PreviousConfident(rows, n) == PreviousConfident(later, n)
  {
    if n > 0 {
      PreviousStays(rows, later, k, bound, n - 1);
      assert rows[..k][n - 1] == later[..k][n - 1];
    }
  }

  lemma DeparturesStay(rows: seq<Row>, later: seq<Row>, k: nat, bound: int, anchor: string, t: int)
    requires SameUntil(rows, later, k, bound) && t + DEPARTURE_FREE_SECONDS < bound
    ensures Departs(rows, anchor, t, |rows|) ==> Departs(later, anchor, t, |later|)
  {
    if Departs(rows, anchor, t, |rows|) {
      var j :| 0 <= j < |rows| && IsDeparture(rows, anchor, t, j);
      PreviousStays(rows, later, k, bound, j);
      assert rows[..k][j] == later[..k][j];
      assert IsDeparture(later, anchor, t, j);
    }
  }

  lemma {:induction false} FirstRunSame(p: int -> bool, q: int -> bool, t: int, k: nat)
    requires k <= PRIMARY_HORIZON_SECONDS - SUSTAINED_RUN_SECONDS + 1
    requires forall s :: t <= s < HorizonEnd(t) ==> p(s) == q(s)
    ensures FirstRun(p, t, k) == FirstRun(q, t, k)
    decreases PRIMARY_HORIZON_SECONDS - k
  {
    if k <= PRIMARY_HORIZON_SECONDS - SUSTAINED_RUN_SECONDS {
      assert RunAt(p, t + k) == RunAt(q, t + k);
      FirstRunSame(p, q, t, k + 1);
    }
  }

  lemma DepartureCategoryStays(rows: seq<Row>, later: seq<Row>, k: nat, anchor: string, t: int)
    requires SameUntil(rows, later, k, HorizonEnd(t))
    ensures DepartureCategory(rows, anchor, t) == DepartureCategory(later, anchor, t)
  {
    var bound := HorizonEnd(t);
    SameUntilSymmetric(rows, later, k, bound);
    LatestStays(rows, later, k, bound, t, |rows|);
    LatestStays(later, rows, k, bound, t, |later|);
    LatestStays(rows, later, k, bound, t, k);
  }

  lemma CoverageStays(rows: seq<Row>, later: seq<Row>, k: nat, t: int)
    requires SameUntil(rows, later, k, HorizonEnd(t)) && FullyCovered(rows, t)
    ensures FullyCovered(later, t)
  {
    forall s | t <= s < HorizonEnd(t) ensures Covered(later, s) {
      SecondsStay(rows, later, k, HorizonEnd(t), "", s);
    }
  }

  lemma {:induction false} AnchoredStays(rows: seq<Row>, later: seq<Row>, k: nat, anchor: string, t: int)
    requires SameUntil(rows, later, k, HorizonEnd(t))
    ensures var p, q := AnchoredSecond(rows, anchor), AnchoredSecond(later, anchor);
      Count(p, t, HorizonEnd(t)) == Count(q, t, HorizonEnd(t)) && FirstRun(p, t, 0) == FirstRun(q, t, 0)
  {
    var p, q := AnchoredSecond(rows, anchor), AnchoredSecond(later, anchor);
    SameUntilSymmetric(rows, later, k, HorizonEnd(t));
    forall s | t <= s < HorizonEnd(t) ensures p(s) == q(s) {
      SecondsStay(rows, later, k, HorizonEnd(t), anchor, s);
      SecondsStay(later, rows, k, HorizonEnd(t), anchor, s);
    }
    CountSame(p, q, t, HorizonEnd(t));
    FirstRunSame(p, q, t, 0);
  }

  /** The measured labels depend only on the rows that begin before the horizon end. */
  lemma {:induction false} MeasuresStay(rows: seq<Row>, later: seq<Row>, k: nat, anchor: string, t: int)
    requires SameUntil(rows, later, k, HorizonEnd(t))
    ensures DepartureCategory(rows, anchor, t) == DepartureCategory(later, anchor, t)
    ensures FullyCovered(rows, t) ==> FullyCovered(later, t)
    ensures Departs(rows, anchor, t, |rows|) <==> Departs(later, anchor, t, |later|)
    ensures var p, q := AnchoredSecond(rows, anchor), AnchoredSecond(later, anchor);
      Count(p, t, HorizonEnd(t)) == Count(q, t, HorizonEnd(t)) && FirstRun(p, t, 0) == FirstRun(q, t, 0)
  {
    DepartureCategoryStays(rows, later, k, anchor, t);
    if FullyCovered(rows, t) {
      CoverageStays(rows, later, k, t);
    }
    SameUntilSymmetric(rows, later, k, HorizonEnd(t));
    DeparturesStay(rows, later, k, HorizonEnd(t), anchor, t);
    DeparturesStay(later, rows, k, HorizonEnd(t), anchor, t);
    AnchoredStays(rows, later, k, anchor, t);
  }

  lemma OpenRowsBeginLate(observations: seq<Observation>, bound: int)
    requires !OpenInside(Ledger(observations), bound)
    ensures forall i :: 0 <= i < |observations| && observations[i].endedAt.None? ==>
              observations[i].occurredAt >= bound
  {
    var sorted := SortBy(observations, BeganNoLater);
    SortPermutes(observations, BeganNoLater);
    forall i | 0 <= i < |observations| && observations[i].endedAt.None?
      ensures observations[i].occurredAt >= bound
    {
      assert observations[i] in multiset(observations);
      assert observations[i] in multiset(sorted);
      var j :| 0 <= j < |sorted| && sorted[j] == observations[i];
      assert Ledger(observations)[j].end.None?;
    }
  }

  /** Nothing about the later block or export cuts the horizon short. */
  predicate LeavesHorizon(t: int, laterBlock: Block, laterExport: int) {
    if laterBlock.endedAt.Some? then laterBlock.endedAt.value >= HorizonEnd(t) else laterExport >= HorizonEnd(t)
  }

  lemma RowLabelsStay(
    t: int, anchor: string, block: Block, exportedAt: int, rows: seq<Row>,
    laterBlock: Block, laterExport: int, later: seq<Row>, k: nat)
    requires LabelRows(t, anchor, block, exportedAt, rows).censorReason == Uncensored
    requires SameUntil(rows, later, k, HorizonEnd(t)) && !OpenInside(rows, HorizonEnd(t))
    requires LeavesHorizon(t, laterBlock, laterExport)
    ensures LabelRows(t, anchor, laterBlock, laterExport, later) == LabelRows(t, anchor, block, exportedAt, rows)
  {
    MeasuresStay(rows, later, k, anchor, t);
    SameUntilSymmetric(rows, later, k, HorizonEnd(t));
    OpenInsideStays(later, rows, k, HorizonEnd(t));
  }

  lemma SameRowsUntil(observations: seq<Observation>, later: seq<Observation>, bound: int) returns (k: nat)
    requires Grows(observations, later, bound) && !OpenInside(Ledger(observations), bound)
    ensures SameUntil(Ledger(observations), Ledger(later), k, bound)
  {
    OpenRowsBeginLate(observations, bound);
    EarlyRowsStay(observations, later, bound);
    k := EarlyRowsFirst(observations, bound);
    var k' := EarlyRowsFirst(later, bound);
    assert |Ledger(observations)[..k]| == |Ledger(later)[..k']|;
  }

  /** Main result: once a decision is uncensored, and no row that began inside its horizon is still open, its
      labels are final, whether or not the block has ended. Rows begun past the horizon, open rows closed, a
      block end past the horizon and a later export all leave them as they are. */
  lemma UncensoredLabelsAreFinal(
    t: int, anchorCategory: string, block: Block, exportedAt: int, observations: seq<Observation>,
    laterBlock: Block, laterExport: int, later: seq<Observation>)
    requires Grows(observations, later, HorizonEnd(t)) && LeavesHorizon(t, laterBlock, laterExport)
    ensures var labels := Label(t, anchorCategory, block, exportedAt, observations);
      labels.censorReason == Uncensored && !OpenInside(Ledger(observations), HorizonEnd(t)) ==>
        Label(t, anchorCategory, laterBlock, laterExport, later) == labels
  {
    var rows := Ledger(observations);
    if LabelRows(t, Upper(anchorCategory), block, exportedAt, rows).censorReason == Uncensored
       && !OpenInside(rows, HorizonEnd(t)) {
      var k := SameRowsUntil(observations, later, HorizonEnd(t));
      RowLabelsStay(t, Upper(anchorCategory), block, exportedAt, rows, laterBlock, laterExport, Ledger(later), k);
    }
  }

  /** In a still-open block, being uncensored is enough: an open row inside the horizon would have censored
      the decision, and so would an export before its end. */
  lemma OpenBlockLabelsAreFinal(
    t: int, anchorCategory: string, block: Block, exportedAt: int, observations: seq<Observation>,
    laterBlock: Block, laterExport: int, later: seq<Observation>)
    requires block.endedAt.None?
    requires Label(t, anchorCategory, block, exportedAt, observations).censorReason == Uncensored
    requires Grows(observations, later, HorizonEnd(t)) && laterExport >= exportedAt
    requires laterBlock.endedAt.None? || laterBlock.endedAt.value >= HorizonEnd(t)
    ensures Label(t, anchorCategory, laterBlock, laterExport, later) ==
            Label(t, anchorCategory, block, exportedAt, observations)
  {
    UncensoredLabelsAreFinal(t, anchorCategory, block, exportedAt, observations, laterBlock, laterExport, later);
  }

  // ----- The exported row and its two checks --------------------------------

  /** One row of an outcomes file: each cell's text, and what the seconds cell reads as a number. */
  datatype OutcomeRow = OutcomeRow(
    decisionId: string,
    censorReason: string,
    gapCause: string,
    sustainedAnchor: string,
    departureFree: string,
    seconds: string,
    secondsValue: Option<int>,
    departureCategory: string)

  function ReasonText(reason: CensorReason): string {
    match reason
    case Uncensored => "none"
    case BlockEnded => "block_ended"
    case ExportEnded => "export_ended"
    case ObserverGap => "observer_gap"
  }

  function CauseText(cause: GapCause): string {
    match cause
    case Pause => "pause"
    case FinalDwell => "final_dwell"
    case OtherCause => "other"
  }

  function FlagText(flag: Option<bool>): string {
    if flag.None? then "" else if flag.value then "1" else "0"
  }

  function Decimal(n: nat): (text: string)
    ensures text != ""
  {
    if n < 10 then [(n as char) + '0'] else Decimal(n / 10) + [((n % 10) as char) + '0']
  }

  /** A decision's labels as the exporter writes them: an absent label is an empty cell. */
  function Render(decisionId: string, labels: Labels): OutcomeRow {
    OutcomeRow(
      decisionId,
      ReasonText(labels.censorReason),
      if labels.gapCause.None? then "" else CauseText(labels.gapCause.value),
      FlagText(labels.sustainedAnchor),
      FlagText(labels.departureFree),
      if labels.secondsToReturn.None? then "" else Decimal(labels.secondsToReturn.value),
      if labels.secondsToReturn.None? then None else Some(labels.secondsToReturn.value),
      if labels.departureCategory.None? then "" else labels.departureCategory.value)
  }

  datatype Problem =
    | UnknownCategory | UnknownCause | CauseWithoutGap | CensoredButLabelled
    | UnknownReason | MissingFlags | SecondsOutOfRange

  predicate IsCensorReason(text: string) {
    text == "block_ended" || text == "export_ended" || text == "observer_gap"
  }

  predicate IsGapCause(text: string) { text == "pause" || text == "final_dwell" || text == "other" }

  predicate IsFlag(text: string) { text == "0" || text == "1" }

  /** The first check, of a row on its own: the first thing wrong with it, if anything is. */
  function OutcomeProblem(row: OutcomeRow): Option<Problem> {
    if row.departureCategory != "" && row.departureCategory !in SERVICE_CATEGORIES + ["unrecognized"]
    then Some(UnknownCategory)
    else if row.censorReason == "observer_gap" && !IsGapCause(row.gapCause) then Some(UnknownCause)
    else if row.censorReason != "observer_gap" && row.gapCause != "" then Some(CauseWithoutGap)
    else if IsCensorReason(row.censorReason) then
      (if row.sustainedAnchor == "" && row.departureFree == "" && row.seconds == "" then None
       else Some(CensoredButLabelled))
    else if row.censorReason != "none" then Some(UnknownReason)
    else if !IsFlag(row.sustainedAnchor) || !IsFlag(row.departureFree) then Some(MissingFlags)
    else if row.seconds != "" &&
            (row.secondsValue.None?
             || !(0 <= row.secondsValue.value <= PRIMARY_HORIZON_SECONDS - SUSTAINED_RUN_SECONDS))
    then Some(SecondsOutOfRange)
    else None
  }

  datatype Disagreement = BlockEndMismatch | ExportEndedOnEndedBlock | FinalDwellOnOpenBlock | HorizonStillRunning

  /** The second check, of a row against its decision: the first fact of the decision it cannot be true of. */
  function OutcomeDisagreement(occurredAt: Option<int>, blockEndedAt: Option<int>, row: OutcomeRow,
                               exportedAt: Option<int>): Option<Disagreement>
  {
    var horizonEnd := HorizonEnd(if occurredAt.Some? then occurredAt.value else 0);
    var blockEnded := blockEndedAt.Some? && blockEndedAt.value < horizonEnd;
    if blockEnded != (row.censorReason == "block_ended") then Some(BlockEndMismatch)
    else if row.censorReason == "export_ended" && blockEndedAt.Some? then Some(ExportEndedOnEndedBlock)
    else if row.gapCause == "final_dwell" && blockEndedAt.None? then Some(FinalDwellOnOpenBlock)
    else if blockEndedAt.None? && exportedAt.Some? && exportedAt.value < horizonEnd
            && row.censorReason != "export_ended"
    then Some(HorizonStillRunning)
    else None
  }

  lemma ReasonTexts(reason: CensorReason)
    ensures IsCensorReason(ReasonText(reason)) <==> reason != Uncensored
    ensures ReasonText(reason) == "none" <==> reason == Uncensored
    ensures ReasonText(reason) == "block_ended" <==> reason == BlockEnded
    ensures ReasonText(reason) == "export_ended" <==> reason == ExportEnded
    ensures ReasonText(reason) == "observer_gap" <==> reason == ObserverGap
  {
    assert "export_ended"[0] != "observer_gap"[0];
  }

  lemma CauseTexts(cause: GapCause)
    ensures IsGapCause(CauseText(cause)) && CauseText(cause) != ""
    ensures CauseText(cause) == "final_dwell" <==> cause == FinalDwell
  {
    assert "pause"[0] != "other"[0];
  }

  /** What `label_decision` can produce. */
  predicate WellFormed(labels: Labels) {
    && (labels.gapCause.Some? <==> labels.censorReason == ObserverGap)
    && (labels.sustainedAnchor.Some? <==> labels.censorReason == Uncensored)
    && (labels.departureFree.Some? <==> labels.censorReason == Uncensored)
    && (labels.secondsToReturn.Some? ==> labels.censorReason == Uncensored)
    && (labels.secondsToReturn.Some? ==>
          labels.secondsToReturn.value <= PRIMARY_HORIZON_SECONDS - SUSTAINED_RUN_SECONDS)
    && (labels.departureCategory.Some? ==> labels.departureCategory.value in SERVICE_CATEGORIES + ["unrecognized"])
  }

  lemma DepartureIsKnown(rows: seq<Row>, anchor: string, t: int)
    ensures var d := DepartureCategory(rows, anchor, t);
      d.Some? ==> d.value in SERVICE_CATEGORIES + ["unrecognized"]
  {
    assert "unrecognized" in ["unrecognized"];
  }

  lemma LabelsAreWellFormed(
    t: int, anchorCategory: string, block: Block, exportedAt: int, observations: seq<Observation>)
    ensures WellFormed(Label(t, anchorCategory, block, exportedAt, observations))
  {
    var rows, anchor := Ledger(observations), Upper(anchorCategory);
    DepartureIsKnown(rows, anchor, t);
    FirstRunIsLeast(AnchoredSecond(rows, anchor), t, 0);
  }

  lemma WellFormedHasNoProblem(decisionId: string, labels: Labels)
    requires WellFormed(labels)
    ensures OutcomeProblem(Render(decisionId, labels)) == None
  {
    ReasonTexts(labels.censorReason);
    if labels.gapCause.Some? {
      CauseTexts(labels.gapCause.value);
    }
  }

  /** Every labelled decision passes both checks, against its own facts and whether or not the analysis
      knows the export time. */
  lemma LabelsPassBothChecks(
    decisionId: string, t: int, anchorCategory: string, block: Block, exportedAt: int,
    observations: seq<Observation>, known: bool)
    ensures var row := Render(decisionId, Label(t, anchorCategory, block, exportedAt, observations));
      && OutcomeProblem(row) == None
      && OutcomeDisagreement(Some(t), block.endedAt, row, if known then Some(exportedAt) else None) == None
  {
    var labels := Label(t, anchorCategory, block, exportedAt, observations);
    LabelsAreWellFormed(t, anchorCategory, block, exportedAt, observations);
    WellFormedHasNoProblem(decisionId, labels);
    ReasonTexts(labels.censorReason);
    if labels.gapCause.Some? {
      CauseTexts(labels.gapCause.value);
    }
  }
}
