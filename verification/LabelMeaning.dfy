/** The labels of a decision, in terms of the observations themselves. */
module LabelMeaning {
  import opened Prelude
  import opened Sorting
  import opened OutcomeLabels

  // ----- Observations -------------------------------------------------------

  /** The observation is evidence: classified, of high or medium confidence, and of a category that says
      something. */
  predicate IsSure(o: Observation) {
    && o.status == "classified"
    && o.confidence in ["high", "medium"]
    && Lower(o.category) !in ["system", "unclassified", "unlogged"]
  }

  /** Observed at `s`: begun, and ended later. */
  predicate IsOn(o: Observation, s: int) { o.endedAt.Some? && o.occurredAt <= s < o.endedAt.value }

  predicate IsAnchor(o: Observation, anchor: string) { IsSure(o) && Upper(o.category) == Upper(anchor) }

  predicate IsObserved(observations: seq<Observation>, s: int) {
    exists i :: 0 <= i < |observations| && IsOn(observations[i], s)
  }

  predicate IsAtAnchor(observations: seq<Observation>, anchor: string, s: int) {
    exists i :: 0 <= i < |observations| && IsAnchor(observations[i], anchor) && IsOn(observations[i], s)
  }

  function AtAnchor(observations: seq<Observation>, anchor: string): int -> bool {
    s => IsAtAnchor(observations, anchor, s)
  }

  /** Some observation that began before `bound` has not ended. */
  predicate IsOpenBefore(observations: seq<Observation>, bound: int) {
    exists i :: 0 <= i < |observations| && observations[i].endedAt.None? && observations[i].occurredAt < bound
  }

  /** The observations in order of time, those of one second in the order given. */
  function InOrder(observations: seq<Observation>): seq<Observation> { SortBy(observations, BeganNoLater) }

  lemma {:induction false} InOrderMeans(observations: seq<Observation>, at: int)
    ensures multiset(InOrder(observations)) == multiset(observations)
    ensures forall i, j :: 0 <= i < j < |InOrder(observations)| ==>
              InOrder(observations)[i].occurredAt <= InOrder(observations)[j].occurredAt
    ensures Filter(InOrder(observations), BeganAt(at)) == Filter(observations, BeganAt(at))
  {
    SortPermutes(observations, BeganNoLater);
    BeganNoLaterIsTotal();
    SortBySorted(observations, BeganNoLater);
    var ordered := InOrder(observations);
    forall i, j | 0 <= i < j < |ordered| ensures ordered[i].occurredAt <= ordered[j].occurredAt {
      assert BeganNoLater(ordered[i], ordered[j]);
    }
    SortFiltered(observations, BeganNoLater, BeganAt(at));
    var kept := Filter(observations, BeganAt(at));
    forall i | 0 <= i < |kept| ensures kept[i].occurredAt == at {
      FilterMembers(observations, BeganAt(at), kept[i]);
    }
    SortBySortedInput(kept, BeganNoLater);
  }

  function BeganAt(at: int): Observation -> bool { (o: Observation) => o.occurredAt == at }

  /** Every observation has a place in the ledger, and every ledger row is an observation's. */
  lemma PlaceInLedger(observations: seq<Observation>, i: nat) returns (j: nat)
    requires i < |observations|
    ensures j < |InOrder(observations)| && InOrder(observations)[j] == observations[i]
  {
    SortPermutes(observations, BeganNoLater);
    assert observations[i] in multiset(InOrder(observations));
    j :| 0 <= j < |InOrder(observations)| && InOrder(observations)[j] == observations[i];
  }

  lemma PlaceInFile(observations: seq<Observation>, j: nat) returns (i: nat)
    requires j < |InOrder(observations)|
    ensures i < |observations| && InOrder(observations)[j] == observations[i]
  {
    SortPermutes(observations, BeganNoLater);
    assert InOrder(observations)[j] in multiset(observations);
    i :| 0 <= i < |observations| && observations[i] == InOrder(observations)[j];
  }

  lemma RowMeans(o: Observation, s: int, anchor: string)
    ensures ReadRow(o).start == o.occurredAt && ReadRow(o).end == o.endedAt
    ensures ReadRow(o).Covers(s) <==> IsOn(o, s)
    ensures ReadRow(o).confident <==> IsSure(o)
    ensures ReadRow(o).category == Upper(o.category)
  {
  }

  lemma CoveredMeans(observations: seq<Observation>, s: int)
    ensures Covered(Ledger(observations), s) <==> IsObserved(observations, s)
  {
    var rows, ordered := Ledger(observations), InOrder(observations);
    if Covered(rows, s) {
      var j :| 0 <= j < |rows| && rows[j].Covers(s);
      RowMeans(ordered[j], s, "");
      var i := PlaceInFile(observations, j);
      assert IsOn(observations[i], s);
    }
    if IsObserved(observations, s) {
      var i :| 0 <= i < |observations| && IsOn(observations[i], s);
      var j := PlaceInLedger(observations, i);
      RowMeans(ordered[j], s, "");
      assert rows[j].Covers(s);
    }
  }

  lemma AnchoredMeans(observations: seq<Observation>, anchor: string, s: int)
    ensures Anchored(Ledger(observations), Upper(anchor), s) <==> IsAtAnchor(observations, anchor, s)
  {
    var rows, ordered := Ledger(observations), InOrder(observations);
    if Anchored(rows, Upper(anchor), s) {
      var j :| 0 <= j < |rows| && rows[j].confident && rows[j].category == Upper(anchor) && rows[j].Covers(s);
      RowMeans(ordered[j], s, anchor);
      var i := PlaceInFile(observations, j);
      assert IsAnchor(observations[i], anchor) && IsOn(observations[i], s);
    }
    if IsAtAnchor(observations, anchor, s) {
      var i :| 0 <= i < |observations| && IsAnchor(observations[i], anchor) && IsOn(observations[i], s);
      var j := PlaceInLedger(observations, i);
      RowMeans(ordered[j], s, anchor);
      assert rows[j].confident && rows[j].category == Upper(anchor) && rows[j].Covers(s);
    }
  }

  lemma OpenMeans(observations: seq<Observation>, bound: int)
    ensures OpenInside(Ledger(observations), bound) <==> IsOpenBefore(observations, bound)
  {
    var rows, ordered := Ledger(observations), InOrder(observations);
    if OpenInside(rows, bound) {
      var j :| 0 <= j < |rows| && rows[j].end.None? && rows[j].start < bound;
      RowMeans(ordered[j], 0, "");
      var i := PlaceInFile(observations, j);
      assert observations[i].endedAt.None?;
    }
    if IsOpenBefore(observations, bound) {
      var i :| 0 <= i < |observations| && observations[i].endedAt.None? && observations[i].occurredAt < bound;
      var j := PlaceInLedger(observations, i);
      RowMeans(ordered[j], 0, "");
      assert rows[j].end.None?;
    }
  }

  lemma BegunMeans(observations: seq<Observation>, s: int)
    ensures AllBegunBy(Ledger(observations), s) <==>
            forall i :: 0 <= i < |observations| ==> observations[i].occurredAt <= s
  {
    var rows, ordered := Ledger(observations), InOrder(observations);
    if AllBegunBy(rows, s) {
      forall i | 0 <= i < |observations| ensures observations[i].occurredAt <= s {
        var j := PlaceInLedger(observations, i);
        assert rows[j].start <= s;
      }
    }
    if forall i :: 0 <= i < |observations| ==> observations[i].occurredAt <= s {
      forall j | 0 <= j < |rows| ensures rows[j].start <= s {
        var i := PlaceInFile(observations, j);
      }
    }
  }

  // ----- Censoring ----------------------------------------------------------

  predicate EndedInside(t: int, block: Block) { block.endedAt.Some? && block.endedAt.value < t + 900 }

  /** The block is open, and the export or an open observation ends inside the fifteen minutes. */
  predicate StillRunning(t: int, block: Block, exportedAt: int, observations: seq<Observation>) {
    block.endedAt.None? && (exportedAt < t + 900 || IsOpenBefore(observations, t + 900))
  }

  ghost predicate HasGap(t: int, observations: seq<Observation>) {
    exists s :: t <= s < t + 900 && !IsObserved(observations, s)
  }

  lemma GapMeans(t: int, observations: seq<Observation>)
    ensures FullyCovered(Ledger(observations), t) <==> !HasGap(t, observations)
  {
    forall s | t <= s < t + 900 ensures Covered(Ledger(observations), s) <==> IsObserved(observations, s) {
      CoveredMeans(observations, s);
    }
  }

  /** A decision is censored because its block ended inside the fifteen minutes after it, or because they were
      still running at export, or because some second of them was not observed; the first reason counts. */
  lemma ReasonMeans(t: int, anchor: string, block: Block, exportedAt: int, observations: seq<Observation>)
    ensures var reason := Label(t, anchor, block, exportedAt, observations).censorReason;
      && (reason == BlockEnded <==> EndedInside(t, block))
      && (reason == ExportEnded <==> StillRunning(t, block, exportedAt, observations))
      && (reason == ObserverGap <==>
            !EndedInside(t, block) && !StillRunning(t, block, exportedAt, observations) && HasGap(t, observations))
  {
    GapMeans(t, observations);
    OpenMeans(observations, t + 900);
  }

  /** Every unobserved second comes after the last observation began. */
  ghost predicate OnlyLastStretch(t: int, observations: seq<Observation>) {
    observations != [] &&
    forall s :: t <= s < t + 900 && !IsObserved(observations, s) ==>
      forall i :: 0 <= i < |observations| ==> observations[i].occurredAt <= s
  }

  lemma LastStretchMeans(t: int, observations: seq<Observation>)
    ensures OnlyFinalDwell(Ledger(observations), t) <==> OnlyLastStretch(t, observations)
  {
    forall s | t <= s < t + 900
      ensures Covered(Ledger(observations), s) <==> IsObserved(observations, s)
      ensures AllBegunBy(Ledger(observations), s) <==>
              forall i :: 0 <= i < |observations| ==> observations[i].occurredAt <= s
    {
      CoveredMeans(observations, s);
      BegunMeans(observations, s);
    }
    assert |Ledger(observations)| == |observations|;
  }

  /** A gap is an ended block's final stretch, or else a pause that no restart explains, or else other. */
  lemma CauseMeans(t: int, anchor: string, block: Block, exportedAt: int, observations: seq<Observation>)
    ensures var labels := Label(t, anchor, block, exportedAt, observations);
            var last := block.endedAt.Some? && OnlyLastStretch(t, observations);
            var paused := (block.totalPausedSeconds > 0 || block.phase == "paused") && !block.recoveredAfterRestart;
      && (labels.gapCause.Some? <==> labels.censorReason == ObserverGap)
      && (labels.gapCause == Some(FinalDwell) <==> labels.censorReason == ObserverGap && last)
      && (labels.gapCause == Some(Pause) <==> labels.censorReason == ObserverGap && !last && paused)
  {
    LastStretchMeans(t, observations);
  }

  // ----- The measured labels ------------------------------------------------

  /** In order of time, observation `j` leaves the anchor within ten minutes after `t`: it is evidence of
      something else, and the last evidence before it, `i`, was of the anchor. */
  predicate Leaves(ordered: seq<Observation>, anchor: string, t: int, i: int, j: int) {
    && 0 <= i < j < |ordered|
    && IsSure(ordered[j]) && !IsAnchor(ordered[j], anchor) && t < ordered[j].occurredAt <= t + 600
    && IsAnchor(ordered[i], anchor)
    && forall m :: i < m < j ==> !IsSure(ordered[m])
  }

  ghost predicate LeavesAnchor(ordered: seq<Observation>, anchor: string, t: int) {
    exists i, j :: Leaves(ordered, anchor, t, i, j)
  }

  /** The last confident row before `n`, by its place. */
  lemma {:induction false} PreviousMeans(ordered: seq<Observation>, n: nat, i: int)
    requires n <= |ordered| && 0 <= i < n && IsSure(ordered[i]) && forall m :: i < m < n ==> !IsSure(ordered[m])
    ensures PreviousConfident(ReadRows(ordered), n) == Some(Upper(ordered[i].category))
  {
    if i < n - 1 {
      PreviousMeans(ordered, n - 1, i);
    }
  }

  lemma {:induction false} PreviousPlace(ordered: seq<Observation>, n: nat) returns (i: int)
    requires n <= |ordered| && PreviousConfident(ReadRows(ordered), n).Some?
    ensures 0 <= i < n && IsSure(ordered[i]) && forall m :: i < m < n ==> !IsSure(ordered[m])
    ensures PreviousConfident(ReadRows(ordered), n) == Some(Upper(ordered[i].category))
  {
    if IsSure(ordered[n - 1]) {
      i := n - 1;
    } else {
      i := PreviousPlace(ordered, n - 1);
    }
  }

  lemma DepartsMeans(observations: seq<Observation>, anchor: string, t: int)
    ensures var rows := Ledger(observations);
      Departs(rows, Upper(anchor), t, |rows|) <==> LeavesAnchor(InOrder(observations), anchor, t)
  {
    var rows, ordered := Ledger(observations), InOrder(observations);
    if Departs(rows, Upper(anchor), t, |rows|) {
      var j :| 0 <= j < |rows| && IsDeparture(rows, Upper(anchor), t, j);
      RowMeans(ordered[j], t, anchor);
      var i := PreviousPlace(ordered, j);
      assert Leaves(ordered, anchor, t, i, j);
    }
    if LeavesAnchor(ordered, anchor, t) {
      var i, j :| Leaves(ordered, anchor, t, i, j);
      RowMeans(ordered[j], t, anchor);
      PreviousMeans(ordered, j, i);
      assert IsDeparture(rows, Upper(anchor), t, j);
    }
  }

  /** An uncensored decision is sustained exactly when at least 600 of the 900 seconds after it are at the
      anchor, and departure-free exactly when no evidence leaves the anchor within ten minutes; a censored one
      has neither label. */
  lemma {:induction false} MeasuresMean(
    t: int, anchor: string, block: Block, exportedAt: int, observations: seq<Observation>)
    ensures var labels := Label(t, anchor, block, exportedAt, observations);
      if labels.censorReason == Uncensored then
        && labels.sustainedAnchor == Some(Count(AtAnchor(observations, anchor), t, t + 900) >= 600)
        && labels.departureFree == Some(!LeavesAnchor(InOrder(observations), anchor, t))
      else labels.sustainedAnchor == None && labels.departureFree == None && labels.secondsToReturn == None
  {
    var p, q := AnchoredSecond(Ledger(observations), Upper(anchor)), AtAnchor(observations, anchor);
    forall s | t <= s < t + 900 ensures p(s) == q(s) {
      AnchoredMeans(observations, anchor, s);
    }
    CountSame(p, q, t, t + 900);
    DepartsMeans(observations, anchor, t);
  }

  /** Five minutes at the anchor from `s` on. */
  ghost predicate StaysFrom(observations: seq<Observation>, anchor: string, s: int) {
    forall u :: s <= u < s + 300 ==> IsAtAnchor(observations, anchor, u)
  }

  /** The time to sustained return is the first offset, 0 to 600, of five minutes at the anchor; an uncensored
      decision without one has none. */
  lemma ReturnMeans(t: int, anchor: string, block: Block, exportedAt: int, observations: seq<Observation>, k: nat)
    requires Label(t, anchor, block, exportedAt, observations).censorReason == Uncensored
    ensures var seconds := Label(t, anchor, block, exportedAt, observations).secondsToReturn;
      seconds == Some(k) <==>
      && k <= 600 && StaysFrom(observations, anchor, t + k)
      && forall s :: t <= s < t + k ==> !StaysFrom(observations, anchor, s)
  {
    var p := AnchoredSecond(Ledger(observations), Upper(anchor));
    ReturnIsLeastRun(t, anchor, block, exportedAt, observations);
    forall s ensures RunAt(p, s) <==> StaysFrom(observations, anchor, s) {
      forall u | s <= u < s + 300 ensures p(u) <==> IsAtAnchor(observations, anchor, u) {
        AnchoredMeans(observations, anchor, u);
      }
    }
  }

  // ----- Where the person was -----------------------------------------------

  /** In order of time, observation `j` is the latest evidence that began by `t`. */
  predicate IsLatestSure(ordered: seq<Observation>, t: int, j: int) {
    && 0 <= j < |ordered| && IsSure(ordered[j]) && ordered[j].occurredAt <= t
    && forall m :: j < m < |ordered| ==> !(IsSure(ordered[m]) && ordered[m].occurredAt <= t)
  }

  lemma {:induction false} LatestMeans(ordered: seq<Observation>, t: int, n: nat, j: int)
    requires n <= |ordered| && 0 <= j < n && IsSure(ordered[j]) && ordered[j].occurredAt <= t
    requires forall m :: j < m < n ==> !(IsSure(ordered[m]) && ordered[m].occurredAt <= t)
    ensures LatestConfident(ReadRows(ordered), t, n) == Some(Upper(ordered[j].category))
  {
    if j < n - 1 {
      LatestMeans(ordered, t, n - 1, j);
    }
  }

  lemma {:induction false} NoneLatest(ordered: seq<Observation>, t: int, n: nat)
    requires n <= |ordered| && forall m :: 0 <= m < n ==> !(IsSure(ordered[m]) && ordered[m].occurredAt <= t)
    ensures LatestConfident(ReadRows(ordered), t, n) == None
  {
    if n > 0 {
      NoneLatest(ordered, t, n - 1);
    }
  }

  /** The departure category is that of the latest evidence by the decision, unless it is the anchor's; a
      category outside the eight the service knows reads as unrecognized. */
  lemma DepartureMeans(t: int, anchor: string, block: Block, exportedAt: int, observations: seq<Observation>, j: int)
    requires IsLatestSure(InOrder(observations), t, j)
    ensures var c := Upper(InOrder(observations)[j].category);
      Label(t, anchor, block, exportedAt, observations).departureCategory ==
      if c == Upper(anchor) then None
      else if c in ["FOCUS_WORK", "PASSIVE_CONSUMPTION", "SOCIAL_FEED", "COMMUNICATION",
                    "TASK_MANAGEMENT", "REFERENCE", "SYSTEM", "UNLOGGED"] then Some(c)
      else Some("unrecognized")
  {
    LatestMeans(InOrder(observations), t, |observations|, j);
  }

  lemma NoDeparture(t: int, anchor: string, block: Block, exportedAt: int, observations: seq<Observation>)
    requires forall j :: !IsLatestSure(InOrder(observations), t, j)
    ensures Label(t, anchor, block, exportedAt, observations).departureCategory == None
  {
    var ordered := InOrder(observations);
    NoneSure(ordered, t, |ordered|);
    NoneLatest(ordered, t, |ordered|);
  }

  lemma {:induction false} NoneSure(ordered: seq<Observation>, t: int, n: nat)
    requires n <= |ordered| && forall j :: !IsLatestSure(ordered, t, j)
    ensures forall m :: |ordered| - n <= m < |ordered| ==> !(IsSure(ordered[m]) && ordered[m].occurredAt <= t)
  {
    if n > 0 {
      NoneSure(ordered, t, n - 1);
      assert !IsLatestSure(ordered, t, |ordered| - n);
    }
  }

  // ----- The exported row ---------------------------------------------------

  function FromDigits(text: string): nat {
    if text == "" then 0
    else
      var digit := text[|text| - 1];
      FromDigits(text[..|text| - 1]) * 10 + (if '0' <= digit <= '9' then (digit - '0') as nat else 0)
  }

  /** A number is written in its decimal digits. */
  lemma {:induction false} DecimalReads(n: nat)
    ensures FromDigits(Decimal(n)) == n
    ensures forall i :: 0 <= i < |Decimal(n)| ==> '0' <= Decimal(n)[i] <= '9'
  {
    if n < 10 {
      assert Decimal(n)[..0] == "" && FromDigits("") == 0;
    } else {
      DecimalReads(n / 10);
      var text := Decimal(n);
      assert text[..|text| - 1] == Decimal(n / 10);
    }
  }

  /** What a cell of a flag may say: nothing, no or yes. */
  predicate FlagCell(cell: string, flag: Option<bool>) {
    && (cell == "" <==> flag == None) && (cell == "0" <==> flag == Some(false)) && (cell == "1" <==> flag == Some(true))
  }

  predicate ReasonCell(cell: string, reason: CensorReason) {
    && (cell == "none" <==> reason == Uncensored) && (cell == "block_ended" <==> reason == BlockEnded)
    && (cell == "export_ended" <==> reason == ExportEnded) && (cell == "observer_gap" <==> reason == ObserverGap)
  }

  predicate CauseCell(cell: string, cause: Option<GapCause>) {
    && (cell == "" <==> cause == None) && (cell == "pause" <==> cause == Some(Pause))
    && (cell == "final_dwell" <==> cause == Some(FinalDwell)) && (cell == "other" <==> cause == Some(OtherCause))
  }

  /** The cells of a row say these labels, the seconds by their value. */
  predicate Says(row: OutcomeRow, labels: Labels) {
    && ReasonCell(row.censorReason, labels.censorReason)
    && CauseCell(row.gapCause, labels.gapCause)
    && FlagCell(row.sustainedAnchor, labels.sustainedAnchor)
    && FlagCell(row.departureFree, labels.departureFree)
    && (row.seconds == "" <==> labels.secondsToReturn.None?)
    && (labels.secondsToReturn.Some? ==> row.secondsValue == Some(labels.secondsToReturn.value))
    && row.departureCategory == (if labels.departureCategory.Some? then labels.departureCategory.value else "")
  }

  lemma TextsOfCells()
    ensures "none" != "block_ended" && "none" != "export_ended" && "none" != "observer_gap"
    ensures "block_ended" != "export_ended" && "block_ended" != "observer_gap" && "export_ended" != "observer_gap"
    ensures "pause" != "final_dwell" && "pause" != "other" && "final_dwell" != "other"
  {
    assert "export_ended"[0] != "observer_gap"[0];
    assert "pause"[0] != "other"[0];
  }

  /** The exporter's row for a decision says its labels, and the seconds in decimal. */
  lemma RenderSays(decisionId: string, labels: Labels)
    ensures var row := Render(decisionId, labels);
      && row.decisionId == decisionId && Says(row, labels)
      && (labels.secondsToReturn.Some? ==> FromDigits(row.seconds) == labels.secondsToReturn.value)
  {
    TextsOfCells();
    if labels.secondsToReturn.Some? {
      DecimalReads(labels.secondsToReturn.value);
    }
  }

  function ReadFlag(cell: string): Option<bool> {
    if cell == "1" then Some(true) else if cell == "0" then Some(false) else None
  }

  function ReadLabels(row: OutcomeRow): Labels {
    Labels(
      if row.censorReason == "block_ended" then BlockEnded
      else if row.censorReason == "export_ended" then ExportEnded
      else if row.censorReason == "observer_gap" then ObserverGap else Uncensored,
      if row.gapCause == "pause" then Some(Pause)
      else if row.gapCause == "final_dwell" then Some(FinalDwell)
      else if row.gapCause == "other" then Some(OtherCause) else None,
      ReadFlag(row.sustainedAnchor), ReadFlag(row.departureFree),
      if row.seconds == "" || row.secondsValue.None? || row.secondsValue.value < 0 then None
      else Some(row.secondsValue.value),
      if row.departureCategory == "" then None else Some(row.departureCategory))
  }

  lemma KnownCategory(category: string)
    ensures category in SERVICE_CATEGORIES + ["unrecognized"] ==> category != ""
  {
  }

  /** The first check passes exactly the rows that say labels the exporter could have written: a cause only
      with a gap, flags only without censoring, a return of 0 to 600 s, a known category. */
  lemma PassesIffSays(row: OutcomeRow)
    ensures OutcomeProblem(row) == None <==> exists labels :: WellFormed(labels) && Says(row, labels)
  {
    TextsOfCells();
    if OutcomeProblem(row) == None {
      var labels := ReadLabels(row);
      assert WellFormed(labels) && Says(row, labels);
    }
    if exists labels :: WellFormed(labels) && Says(row, labels) {
      var labels :| WellFormed(labels) && Says(row, labels);
      SaidPasses(row, labels);
    }
  }

  lemma FlagIsEither(flag: Option<bool>)
    requires flag.Some?
    ensures flag == Some(true) || flag == Some(false)
  {
    match flag
    case Some(yes) => assert yes || !yes;
  }

  lemma CauseIsOneOf(cause: Option<GapCause>)
    requires cause.Some?
    ensures cause == Some(Pause) || cause == Some(FinalDwell) || cause == Some(OtherCause)
  {
    match cause
    case Some(c) =>
      match c
      case Pause =>
      case FinalDwell =>
      case OtherCause =>
  }

  lemma SaidPasses(row: OutcomeRow, labels: Labels)
    requires WellFormed(labels) && Says(row, labels)
    ensures OutcomeProblem(row) == None
  {
    TextsOfCells();
    match labels.censorReason
    case Uncensored =>
      FlagIsEither(labels.sustainedAnchor);
      FlagIsEither(labels.departureFree);
    case BlockEnded =>
    case ExportEnded =>
    case ObserverGap =>
      CauseIsOneOf(labels.gapCause);
  }

  /** The second check passes a row exactly when its reason fits its decision: the block ended inside the
      fifteen minutes, still ran at export, was open when it says so, or had ended before a final stretch. */
  lemma AgreesIff(occurredAt: int, blockEndedAt: Option<int>, row: OutcomeRow, exportedAt: Option<int>)
    ensures OutcomeDisagreement(Some(occurredAt), blockEndedAt, row, exportedAt) == None <==>
      && (row.censorReason == "block_ended" <==> blockEndedAt.Some? && blockEndedAt.value < occurredAt + 900)
      && (row.censorReason == "export_ended" ==> blockEndedAt.None?)
      && (row.gapCause == "final_dwell" ==> blockEndedAt.Some?)
      && (blockEndedAt.None? && exportedAt.Some? && exportedAt.value < occurredAt + 900 ==>
            row.censorReason == "export_ended")
  {
  }
}
