/** The whole cohort, export by export, and the primary outcome's denominators. */
module PrimaryOutcome {
  import opened Prelude
  import opened Sorting
  import opened OutcomeLabels
  import opened Cohort

  // ----- Loading every export -----------------------------------------------

  function CohortOf(ps: seq<Participant>): Contents {
    if ps == [] then NOTHING else Joined(CohortOf(ps[..|ps| - 1]), ContentsOf(ps[|ps| - 1]))
  }

  lemma CohortStep(ps: seq<Participant>, i: nat)
    requires i < |ps|
    ensures CohortOf(ps[..i + 1]) == Joined(CohortOf(ps[..i]), ContentsOf(ps[i]))
  {
    assert ps[..i + 1][..i] == ps[..i];
  }

  function DecisionCount(): Participant -> nat { (p: Participant) => |p.decisionRows| }

  function OfferCount(): Participant -> nat { (p: Participant) => |p.offerRows| }

  method LoadInTurn(participants: seq<Participant>) returns (cohort: CohortData)
    ensures fresh(cohort) && cohort.Held() == CohortOf(participants)
  {
    cohort := new CohortData();
    for i := 0 to |participants|
      invariant fresh(cohort) && cohort.Held() == CohortOf(participants[..i])
    {
      CohortStep(participants, i);
      cohort.LoadParticipant(participants[i]);
    }
    assert participants[..|participants|] == participants;
  }

  /** The exports in turn, into one cohort. Every decision row loaded is malformed, under another policy or
      analysed, and every offer row is malformed, excluded, withheld or delivered, once each; every eligible
      point is whole; every offer kept is under the analysed policy alone. */
  method Load(participants: seq<Participant>) returns (cohort: CohortData)
    ensures fresh(cohort) && cohort.Held() == CohortOf(participants)
    ensures AddsUp(cohort.Held(), SumOver(participants, DecisionCount()), SumOver(participants, OfferCount()))
    ensures IsSound(cohort.Held(), participants)
  {
    cohort := LoadInTurn(participants);
    CohortAddsUp(participants);
    CohortIsSound(participants);
  }

  // ----- Every row once -----------------------------------------------------

  function WasOffered(): DecisionRow -> bool { (row: DecisionRow) => row.verdict == "offered" }

  /** A cohort's lists and counters account for the rows loaded. */
  predicate AddsUp(c: Contents, decisions: nat, offers: nat) {
    && |c.malformedDecisions| + |c.otherPolicyDecisions| + |c.analysedDecisions| == decisions
    && |c.decisionsByPolicy| == |c.otherPolicyDecisions| + |c.analysedDecisions|
    && c.decisionsByPolicy[ANALYSED_POLICY_VERSION] == |c.analysedDecisions|
    && |Filter(c.analysedDecisions, WasOffered())| == |c.excludedDecisions| + |c.eligible|
    && |c.malformedOffers| + |c.excludedOffers| + |c.withheld| + |c.offers| == offers
    && |c.offersByAttribution| == |c.excludedOffers| + |c.withheld| + |c.offers|
    && |c.withheld| + |c.offers| <= c.offersByAttribution[OneVersion(ANALYSED_POLICY_VERSION)]
  }

  lemma JoinedAddsUp(a: Contents, b: Contents, m: nat, n: nat, m': nat, n': nat)
    requires AddsUp(a, m, n) && AddsUp(b, m', n')
    ensures AddsUp(Joined(a, b), m + m', n + n')
  {
    FilterConcat(a.analysedDecisions, b.analysedDecisions, WasOffered());
  }

  lemma {:induction false} DecisionsAddUp(rows: seq<DecisionRow>)
    ensures var analysed, byPolicy := Filter(rows, UnderAnalysedPolicy()), CounterOf(rows, PolicyKey());
      && |rows| == |Filter(rows, InBucket(MalformedDecision))| + |Filter(rows, InBucket(OtherPolicy))| + |analysed|
      && |byPolicy| == |Filter(rows, InBucket(OtherPolicy))| + |analysed|
      && byPolicy[ANALYSED_POLICY_VERSION] == |analysed|
  {
    if rows != [] {
      DecisionsAddUp(rows[..|rows| - 1]);
    }
  }

  lemma {:induction false} OfferedAddUp(rows: seq<DecisionRow>)
    ensures |Filter(Filter(rows, UnderAnalysedPolicy()), WasOffered())|
         == |Filter(rows, InBucket(WarmedUpTooLittle))| + |Filter(rows, InBucket(Eligible))|
  {
    if rows != [] {
      OfferedAddUp(rows[..|rows| - 1]);
      OfferedSnoc(rows);
    }
  }

  lemma OfferedSnoc(rows: seq<DecisionRow>)
    requires rows != []
    ensures var init, last := rows[..|rows| - 1], rows[|rows| - 1];
      |Filter(Filter(rows, UnderAnalysedPolicy()), WasOffered())| ==
      |Filter(Filter(init, UnderAnalysedPolicy()), WasOffered())|
      + if UnderAnalysedPolicy()(last) && WasOffered()(last) then 1 else 0
  {
    var p := UnderAnalysedPolicy();
    var init, last := rows[..|rows| - 1], rows[|rows| - 1];
    assert Filter(rows, p) == Filter(init, p) + One(last, p);
    FilterConcat(Filter(init, p), One(last, p), WasOffered());
    OneFiltered(last, WasOffered());
  }

  lemma OneFiltered<T(!new)>(x: T, p: T -> bool)
    ensures Filter([x], p) == One(x, p)
  {
    assert Filter([x][..0], p) == [];
  }

  lemma KeptIsAnalysed(row: OfferRow, decisions: seq<DecisionRow>)
    requires IsKept(OfferBucketIn(row, decisions))
    ensures VersionsIn(decisions, row.blockId) == {ANALYSED_POLICY_VERSION}
    ensures OfferKey(decisions)(row) == Some(OneVersion(ANALYSED_POLICY_VERSION))
  {
    var versions := VersionsIn(decisions, row.blockId);
    assert |versions - {ANALYSED_POLICY_VERSION}| == 0;
  }

  lemma {:induction false} OffersAddUp(rows: seq<OfferRow>, decisions: seq<DecisionRow>)
    ensures var withheld := Filter(rows, OfferIs(Withheld, decisions));
            var delivered := Filter(rows, OfferIs(Delivered, decisions));
            var excluded, counted := Filter(rows, OfferIsExcluded(decisions)), CounterOf(rows, OfferKey(decisions));
      && |rows| == |Filter(rows, OfferIs(MalformedOffer, decisions))| + |excluded| + |withheld| + |delivered|
      && |counted| == |excluded| + |withheld| + |delivered|
      && |withheld| + |delivered| <= counted[OneVersion(ANALYSED_POLICY_VERSION)]
  {
    if rows != [] {
      OffersAddUp(rows[..|rows| - 1], decisions);
      if IsKept(OfferBucketIn(rows[|rows| - 1], decisions)) {
        KeptIsAnalysed(rows[|rows| - 1], decisions);
      }
    }
  }

  lemma {:induction false} OffersForEach(rows: seq<OfferRow>)
    ensures |OffersFor(rows)| == |rows|
    ensures forall k :: 0 <= k < |rows| ==> OffersFor(rows)[k] == OfferFor(rows[k])
  {
    if rows != [] {
      OffersForEach(rows[..|rows| - 1]);
    }
  }

  lemma ExportAddsUp(p: Participant)
    ensures AddsUp(ContentsOf(p), |p.decisionRows|, |p.offerRows|)
  {
    DecisionsAddUp(p.decisionRows);
    OfferedAddUp(p.decisionRows);
    OffersAddUp(p.offerRows, p.decisionRows);
    OffersForEach(Filter(p.offerRows, OfferIs(Withheld, p.decisionRows)));
    OffersForEach(Filter(p.offerRows, OfferIs(Delivered, p.decisionRows)));
  }

  lemma {:induction false} CohortAddsUp(ps: seq<Participant>)
    ensures AddsUp(CohortOf(ps), SumOver(ps, DecisionCount()), SumOver(ps, OfferCount()))
  {
    if ps != [] {
      var init, last := ps[..|ps| - 1], ps[|ps| - 1];
      CohortAddsUp(init);
      ExportAddsUp(last);
      JoinedAddsUp(CohortOf(init), ContentsOf(last), SumOver(init, DecisionCount()), SumOver(init, OfferCount()),
                   |last.decisionRows|, |last.offerRows|);
    }
  }

  // ----- What a cohort holds ------------------------------------------------

  /** A point has an outcome or a reason it has none, and its outcome row passed both checks. */
  predicate IsPoint(p: Point) {
    && (p.outcome.Some? <==> p.noOutcome == "")
    && (p.outcome.Some? ==>
          && OutcomeProblem(p.outcome.value) == None
          && OutcomeDisagreement(p.row.occurredAt, p.row.blockEndedAt, p.outcome.value, p.exportedAt) == None)
  }

  predicate AllPoints(points: seq<Point>) {
    forall k :: 0 <= k < |points| ==> IsPoint(points[k])
  }

  /** The block's attributing decision rows all have the analysed policy, and there is one. */
  ghost predicate OnlyAnalysedPolicy(decisions: seq<DecisionRow>, blockId: string) {
    forall version :: Attributed(decisions, blockId, version) <==> version == ANALYSED_POLICY_VERSION
  }

  /** The offer is some export's, of a block that export attributes to the analysed policy alone. */
  ghost predicate IsAnalysed(offer: Offer, ps: seq<Participant>) {
    exists i, row ::
      0 <= i < |ps| && row in ps[i].offerRows && offer == OfferFor(row)
      && OnlyAnalysedPolicy(ps[i].decisionRows, row.blockId)
  }

  ghost predicate IsSound(c: Contents, ps: seq<Participant>) {
    && AllPoints(c.eligible)
    && (forall k :: 0 <= k < |c.withheld| ==>
          IsAnalysed(c.withheld[k], ps) && c.withheld[k].outcome in WITHHELD_TERMINAL_OUTCOMES
          && !c.withheld[k].returnedWithinWindow)
    && (forall k :: 0 <= k < |c.offers| ==>
          IsAnalysed(c.offers[k], ps) && c.offers[k].outcome !in WITHHELD_TERMINAL_OUTCOMES)
  }

  lemma PointIsWhole(row: DecisionRow, p: Participant)
    ensures IsPoint(PointOf(row, p))
  {
    assert NO_FILE != "" && BAD_ROW != "" && NO_ROW != "" && CONTRADICTS != "";
  }

  lemma KeptRow(ps: seq<Participant>, i: nat, bucket: OfferBucket, k: nat)
    requires i < |ps| && IsKept(bucket)
    requires k < |OffersFor(Filter(ps[i].offerRows, OfferIs(bucket, ps[i].decisionRows)))|
    ensures var offer := OffersFor(Filter(ps[i].offerRows, OfferIs(bucket, ps[i].decisionRows)))[k];
      && IsAnalysed(offer, ps)
      && (offer.outcome in WITHHELD_TERMINAL_OUTCOMES <==> bucket == Withheld)
      && (bucket == Withheld ==> !offer.returnedWithinWindow)
  {
    var p := ps[i];
    var kept := Filter(p.offerRows, OfferIs(bucket, p.decisionRows));
    OffersForEach(kept);
    var row := kept[k];
    FilterMembers(p.offerRows, OfferIs(bucket, p.decisionRows), row);
    KeptIsAnalysed(row, p.decisionRows);
    forall version ensures Attributed(p.decisionRows, row.blockId, version) <==> version == ANALYSED_POLICY_VERSION {
      AttributedIsIn(p.decisionRows, row.blockId, version);
    }
    assert OnlyAnalysedPolicy(p.decisionRows, row.blockId);
  }

  lemma ExportIsSound(ps: seq<Participant>, i: nat)
    requires i < |ps|
    ensures IsSound(ContentsOf(ps[i]), ps)
  {
    var p := ps[i];
    var c := ContentsOf(p);
    forall k | 0 <= k < |c.eligible| ensures IsPoint(c.eligible[k]) {
      PointIsWhole(Filter(p.decisionRows, InBucket(Eligible))[k], p);
    }
    forall k | 0 <= k < |c.withheld|
      ensures IsAnalysed(c.withheld[k], ps) && c.withheld[k].outcome in WITHHELD_TERMINAL_OUTCOMES
              && !c.withheld[k].returnedWithinWindow
    {
      KeptRow(ps, i, Withheld, k);
    }
    forall k | 0 <= k < |c.offers|
      ensures IsAnalysed(c.offers[k], ps) && c.offers[k].outcome !in WITHHELD_TERMINAL_OUTCOMES
    {
      KeptRow(ps, i, Delivered, k);
    }
  }

  lemma JoinedIsSound(a: Contents, b: Contents, both: Contents, ps: seq<Participant>)
    requires IsSound(a, ps) && IsSound(b, ps) && both == Joined(a, b)
    ensures IsSound(both, ps)
  {
  }

  lemma {:induction false} PrefixIsSound(ps: seq<Participant>, n: nat)
    requires n <= |ps|
    ensures IsSound(CohortOf(ps[..n]), ps)
  {
    if n > 0 {
      PrefixIsSound(ps, n - 1);
      ExportIsSound(ps, n - 1);
      CohortStep(ps, n - 1);
      JoinedIsSound(CohortOf(ps[..n - 1]), ContentsOf(ps[n - 1]), CohortOf(ps[..n]), ps);
    }
  }

  /** Over all exports: every eligible point is whole, and every offer kept is under the analysed policy. */
  lemma {:induction false} CohortIsSound(ps: seq<Participant>)
    ensures IsSound(CohortOf(ps), ps)
  {
    PrefixIsSound(ps, |ps|);
    assert ps[..|ps|] == ps;
  }

  // ----- The primary outcome's denominators ---------------------------------

  const BLOCK_ENDED_EARLY: string := "block ended before the horizon elapsed"
  const EXPORT_TIME_UNKNOWN: string := "block still open and export time unknown"
  const EXPORT_ENDS_INSIDE: string := "the export ends inside the horizon"

  /** What the decisions file alone shows of a point's censoring. */
  function VisibleOf(p: Point): Option<string> {
    var horizonEnd := HorizonEnd(if p.row.occurredAt.Some? then p.row.occurredAt.value else 0);
    if p.row.blockEndedAt.Some? then
      (if p.row.blockEndedAt.value < horizonEnd then Some(BLOCK_ENDED_EARLY) else None)
    else if p.exportedAt.None? then Some(EXPORT_TIME_UNKNOWN)
    else if p.exportedAt.value < horizonEnd then Some(EXPORT_ENDS_INSIDE)
    else None
  }

  function Visible(): Point -> Option<string> { (p: Point) => VisibleOf(p) }

  function NoOutcome(): Point -> Option<string> {
    (p: Point) => if p.noOutcome != "" then Some(p.noOutcome) else None
  }

  function Reason(): OutcomeRow -> Option<string> { (row: OutcomeRow) => Some(row.censorReason) }

  function Cause(): OutcomeRow -> Option<string> {
    (row: OutcomeRow) => if row.censorReason == "observer_gap" then Some(row.gapCause) else None
  }

  function IsUncensored(): OutcomeRow -> bool { (row: OutcomeRow) => row.censorReason == "none" }

  /** Uncensored, and sustained. */
  function IsSustained(): OutcomeRow -> bool {
    (row: OutcomeRow) => row.censorReason == "none" && row.sustainedAnchor == "1"
  }

  /** Uncensored, and departure-free. */
  function IsDepartureFree(): OutcomeRow -> bool {
    (row: OutcomeRow) => row.censorReason == "none" && row.departureFree == "1"
  }

  function OutcomeList(p: Point): seq<OutcomeRow> { if p.outcome.Some? then [p.outcome.value] else [] }

  /** The outcome rows of the points that have one. */
  function Measured(points: seq<Point>): seq<OutcomeRow> {
    if points == [] then [] else Measured(points[..|points| - 1]) + OutcomeList(points[|points| - 1])
  }

  datatype Primary = Primary(
    eligible: nat,
    visible: multiset<string>,
    notVisible: nat,
    notMeasurable: multiset<string>,
    withOutcome: nat,
    censored: multiset<string>,
    gapCauses: multiset<string>,
    censoredTotal: int,
    denominator: nat,
    sustained: nat,
    departureFree: nat)

  /** Each account takes every point once; and what the decisions file alone shows is a floor on the censoring
      the outcome rows report, up to the points that have no row. */
  predicate Balances(r: Primary) {
    && r.eligible == |r.visible| + r.notVisible
    && r.eligible == |r.notMeasurable| + r.withOutcome
    && r.withOutcome == r.censoredTotal + r.denominator
    && r.censoredTotal == r.censored["block_ended"] + r.censored["export_ended"] + r.censored["observer_gap"]
    && r.censored["observer_gap"] == r.gapCauses["pause"] + r.gapCauses["final_dwell"] + r.gapCauses["other"]
    && r.sustained <= r.denominator && r.departureFree <= r.denominator
    && r.censored["block_ended"] <= r.visible[BLOCK_ENDED_EARLY]
    && r.visible[BLOCK_ENDED_EARLY] + r.visible[EXPORT_ENDS_INSIDE]
       <= |r.notMeasurable| + r.censored["block_ended"] + r.censored["export_ended"]
  }

  const NO_POINTS: Primary := Primary(0, multiset{}, 0, multiset{}, 0, multiset{}, multiset{}, 0, 0, 0, 0)

  function Plus(a: Primary, b: Primary): Primary {
    Primary(a.eligible + b.eligible, a.visible + b.visible, a.notVisible + b.notVisible,
            a.notMeasurable + b.notMeasurable, a.withOutcome + b.withOutcome, a.censored + b.censored,
            a.gapCauses + b.gapCauses, a.censoredTotal + b.censoredTotal, a.denominator + b.denominator,
            a.sustained + b.sustained, a.departureFree + b.departureFree)
  }

  /** What one point adds to every account. */
  function OfPoint(p: Point): Primary {
    var uncensored := if p.outcome.Some? && p.outcome.value.censorReason == "none" then 1 else 0;
    Primary(1, KeyBag(VisibleOf(p)), if VisibleOf(p).None? then 1 else 0, KeyBag(NoOutcome()(p)),
            |OutcomeList(p)|,
            if p.outcome.Some? then KeyBag(Reason()(p.outcome.value)) else multiset{},
            if p.outcome.Some? then KeyBag(Cause()(p.outcome.value)) else multiset{},
            |OutcomeList(p)| - uncensored, uncensored,
            |Filter(OutcomeList(p), IsSustained())|, |Filter(OutcomeList(p), IsDepartureFree())|)
  }

  function PrimaryOf(points: seq<Point>): Primary {
    if points == [] then NO_POINTS else Plus(PrimaryOf(points[..|points| - 1]), OfPoint(points[|points| - 1]))
  }

  lemma ReasonIsKnown(row: OutcomeRow)
    requires OutcomeProblem(row) == None
    ensures row.censorReason == "none" || IsCensorReason(row.censorReason)
    ensures row.censorReason == "observer_gap" ==> IsGapCause(row.gapCause)
  {
  }

  lemma TextsDiffer()
    ensures "none" != "block_ended" && "none" != "export_ended" && "none" != "observer_gap"
    ensures "block_ended" != "export_ended" && "block_ended" != "observer_gap" && "export_ended" != "observer_gap"
    ensures "pause" != "final_dwell" && "pause" != "other" && "final_dwell" != "other"
    ensures BLOCK_ENDED_EARLY != EXPORT_ENDS_INSIDE && BLOCK_ENDED_EARLY != EXPORT_TIME_UNKNOWN
    ensures EXPORT_TIME_UNKNOWN != EXPORT_ENDS_INSIDE
  {
    assert "export_ended"[0] != "observer_gap"[0];
    assert "pause"[0] != "other"[0];
    assert BLOCK_ENDED_EARLY[6] != EXPORT_TIME_UNKNOWN[6];
  }

  /** A labelled decision counts toward a numerator exactly when its label is yes. */
  lemma NumeratorsMean(decisionId: string, labels: Labels)
    requires WellFormed(labels)
    ensures IsSustained()(Render(decisionId, labels)) <==> labels.sustainedAnchor == Some(true)
    ensures IsDepartureFree()(Render(decisionId, labels)) <==> labels.departureFree == Some(true)
    ensures IsUncensored()(Render(decisionId, labels)) <==> labels.censorReason == Uncensored
  {
    ReasonTexts(labels.censorReason);
    FlagTexts(labels.sustainedAnchor);
    FlagTexts(labels.departureFree);
  }

  lemma FlagTexts(flag: Option<bool>)
    ensures FlagText(flag) == "1" <==> flag == Some(true)
  {
  }

  /** What the decisions file shows of a point: the block ended inside the fifteen minutes; or it is open and
      the export time is unknown, or inside them; or nothing. */
  lemma VisibleMeans(p: Point)
    requires p.row.occurredAt.Some?
    ensures var end := p.row.occurredAt.value + 900;
      && (VisibleOf(p) == Some("block ended before the horizon elapsed") <==>
            p.row.blockEndedAt.Some? && p.row.blockEndedAt.value < end)
      && (VisibleOf(p) == Some("block still open and export time unknown") <==>
            p.row.blockEndedAt.None? && p.exportedAt.None?)
      && (VisibleOf(p) == Some("the export ends inside the horizon") <==>
            p.row.blockEndedAt.None? && p.exportedAt.Some? && p.exportedAt.value < end)
  {
    TextsDiffer();
  }

  /** What the decisions file shows agrees with the reason of an outcome row that does not contradict it. */
  lemma VisibleAgrees(p: Point)
    requires IsPoint(p) && p.outcome.Some?
    ensures VisibleOf(p) == Some(BLOCK_ENDED_EARLY) <==> p.outcome.value.censorReason == "block_ended"
    ensures VisibleOf(p) == Some(EXPORT_ENDS_INSIDE) ==> p.outcome.value.censorReason == "export_ended"
  {
    TextsDiffer();
  }

  lemma PointBalances(p: Point)
    requires IsPoint(p)
    ensures Balances(OfPoint(p))
  {
    TextsDiffer();
    if p.outcome.Some? {
      ReasonIsKnown(p.outcome.value);
      VisibleAgrees(p);
      OneFiltered(p.outcome.value, IsSustained());
      OneFiltered(p.outcome.value, IsDepartureFree());
    }
  }

  /** Whole points balance every account. */
  lemma {:induction false} PrimaryBalances(points: seq<Point>)
    requires AllPoints(points)
    ensures Balances(PrimaryOf(points)) && PrimaryOf(points).eligible == |points|
  {
    if points != [] {
      PrimaryBalances(points[..|points| - 1]);
      PointBalances(points[|points| - 1]);
    }
  }

  lemma {:induction false} CounterConcat<T, K>(a: seq<T>, b: seq<T>, key: T -> Option<K>)
    ensures CounterOf(a + b, key) == CounterOf(a, key) + CounterOf(b, key)
  {
    if b == [] {
      assert a + b == a;
    } else {
      assert (a + b)[..|a + b| - 1] == a + b[..|b| - 1];
      CounterConcat(a, b[..|b| - 1], key);
    }
  }

  lemma {:induction false} VisibleIsSum(points: seq<Point>)
    ensures var r := PrimaryOf(points);
      r.eligible == |points| && r.visible == CounterOf(points, Visible()) && r.notVisible == |points| - |r.visible|
  {
    if points != [] {
      VisibleIsSum(points[..|points| - 1]);
    }
  }

  /** The counters over the whole list are the sums of what each point adds. */
  lemma {:induction false} CountersAreSums(points: seq<Point>)
    ensures var r, measured := PrimaryOf(points), Measured(points);
      && r.notMeasurable == CounterOf(points, NoOutcome()) && r.withOutcome == |measured|
      && r.censored == CounterOf(measured, Reason()) && r.gapCauses == CounterOf(measured, Cause())
      && r.denominator == |Filter(measured, IsUncensored())| && r.censoredTotal == r.withOutcome - r.denominator
  {
    if points != [] {
      var init, last := points[..|points| - 1], points[|points| - 1];
      CountersAreSums(init);
      CounterConcat(Measured(init), OutcomeList(last), Reason());
      CounterConcat(Measured(init), OutcomeList(last), Cause());
      FilterConcat(Measured(init), OutcomeList(last), IsUncensored());
      if last.outcome.Some? {
        OneFiltered(last.outcome.value, IsUncensored());
        assert OutcomeList(last)[..0] == [];
      }
    }
  }

  /** What the loop reads off one point. */
  method ReadVisible(point: Point) returns (reason: Option<string>)
    ensures reason == VisibleOf(point)
  {
    var row, exported := point.row, point.exportedAt;
    var horizonEnd := HorizonEnd(if row.occurredAt.Some? then row.occurredAt.value else 0);
    if row.blockEndedAt.Some? {
      if row.blockEndedAt.value < horizonEnd {
        return Some(BLOCK_ENDED_EARLY);
      }
    } else if exported.None? {
      return Some(EXPORT_TIME_UNKNOWN);
    } else if exported.value < horizonEnd {
      return Some(EXPORT_ENDS_INSIDE);
    }
    return None;
  }

  lemma {:induction false} FlagsAreSums(points: seq<Point>)
    ensures var r, measured := PrimaryOf(points), Measured(points);
      r.sustained == |Filter(measured, IsSustained())| && r.departureFree == |Filter(measured, IsDepartureFree())|
  {
    if points != [] {
      var init, last := points[..|points| - 1], points[|points| - 1];
      FlagsAreSums(init);
      FilterConcat(Measured(init), OutcomeList(last), IsSustained());
      FilterConcat(Measured(init), OutcomeList(last), IsDepartureFree());
    }
  }

  method CountVisible(points: seq<Point>) returns (visible: multiset<string>, notVisible: nat)
    ensures visible == CounterOf(points, Visible()) && |visible| + notVisible == |points|
  {
    visible, notVisible := multiset{}, 0;
    for i := 0 to |points|
      invariant visible == CounterOf(points[..i], Visible()) && |visible| + notVisible == i
    {
      CounterStep(points, i, Visible());
      var reason := ReadVisible(points[i]);
      if reason.Some? {
        visible := visible + multiset{reason.value};
        continue;
      }
      notVisible := notVisible + 1;
    }
    assert points[..|points|] == points;
  }

  method CountPrimary(points: seq<Point>) returns (r: Primary)
    ensures r == PrimaryOf(points)
  {
    var visible, notVisible := CountVisible(points);
    VisibleIsSum(points);
    CountersAreSums(points);
    FlagsAreSums(points);
    var measured := Measured(points);
    var uncensored := Filter(measured, IsUncensored());
    r := Primary(|points|, visible, notVisible, CounterOf(points, NoOutcome()), |measured|,
                 CounterOf(measured, Reason()), CounterOf(measured, Cause()),
                 |measured| - |uncensored|, |uncensored|,
                 |Filter(measured, IsSustained())|, |Filter(measured, IsDepartureFree())|);
  }

  /** The whole analysis: whatever the exports hold, the denominators of the cohort they load balance. */
  method Analyse(participants: seq<Participant>) returns (r: Primary)
    ensures r == PrimaryOf(CohortOf(participants).eligible)
    ensures Balances(r) && r.eligible == |CohortOf(participants).eligible|
  {
    var cohort := Load(participants);
    PrimaryBalances(cohort.eligible);
    r := CountPrimary(cohort.eligible);
  }

  // ----- A file of labelled decisions ---------------------------------------

  /** What a decision's labels are computed from beside its own row. */
  datatype Facts = Facts(anchorCategory: string, block: Block, observations: seq<Observation>)

  function OutcomeOf(row: DecisionRow, facts: DecisionRow -> Facts, exportedAt: int): OutcomeRow {
    var t := if row.occurredAt.Some? then row.occurredAt.value else 0;
    var f := facts(row);
    Render(row.decisionId, Label(t, f.anchorCategory, f.block, exportedAt, f.observations))
  }

  function Labeller(facts: DecisionRow -> Facts, exportedAt: int): DecisionRow -> OutcomeRow {
    (row: DecisionRow) => OutcomeOf(row, facts, exportedAt)
  }

  /** The outcomes file of a labeller: one row a decision. */
  function OutcomesOf(rows: seq<DecisionRow>, outcome: DecisionRow -> OutcomeRow): seq<OutcomeRow> {
    if rows == [] then [] else OutcomesOf(rows[..|rows| - 1], outcome) + [outcome(rows[|rows| - 1])]
  }

  ghost predicate DistinctIds(rows: seq<DecisionRow>) {
    forall i, j :: 0 <= i < j < |rows| ==> rows[i].decisionId != rows[j].decisionId
  }

  ghost predicate KeepsId(outcome: DecisionRow -> OutcomeRow) {
    forall row :: outcome(row).decisionId == row.decisionId
  }

  lemma {:induction false} NoneFor(rows: seq<DecisionRow>, outcome: DecisionRow -> OutcomeRow, id: string)
    requires KeepsId(outcome) && forall i :: 0 <= i < |rows| ==> rows[i].decisionId != id
    ensures RowsFor(OutcomesOf(rows, outcome), id) == []
  {
    if rows != [] {
      var init, last := rows[..|rows| - 1], rows[|rows| - 1];
      NoneFor(init, outcome, id);
      FilterSnoc(OutcomesOf(init, outcome), outcome(last), ForDecision(id));
    }
  }

  lemma {:induction false} OneFor(rows: seq<DecisionRow>, outcome: DecisionRow -> OutcomeRow, k: nat)
    requires KeepsId(outcome) && DistinctIds(rows) && k < |rows|
    ensures RowsFor(OutcomesOf(rows, outcome), rows[k].decisionId) == [outcome(rows[k])]
  {
    var init, last := rows[..|rows| - 1], rows[|rows| - 1];
    var id := rows[k].decisionId;
    FilterSnoc(OutcomesOf(init, outcome), outcome(last), ForDecision(id));
    if k == |init| {
      NoneFor(init, outcome, id);
    } else {
      assert init[k] == rows[k] && last.decisionId != id;
      OneFor(init, outcome, k);
    }
  }

  /** An export whose outcomes file labels every eligible decision once, against the block end its own row
      states. */
  ghost predicate LabelsEveryEligible(
    p: Participant, labelled: seq<DecisionRow>, facts: DecisionRow -> Facts, exportedAt: int)
  {
    && DistinctIds(labelled)
    && p.outcomeRows == Some(OutcomesOf(labelled, Labeller(facts, exportedAt)))
    && (p.exportedAt.Some? ==> p.exportedAt.value == exportedAt)
    && forall row :: row in p.decisionRows && BucketOf(row) == Eligible ==>
         row in labelled && facts(row).block.endedAt == row.blockEndedAt
  }

  ghost predicate IsLabelled(p: Participant) {
    exists labelled, facts, exportedAt :: LabelsEveryEligible(p, labelled, facts, exportedAt)
  }

  lemma LabelledIsMeasured(
    p: Participant, labelled: seq<DecisionRow>, facts: DecisionRow -> Facts, exportedAt: int, row: DecisionRow)
    ensures LabelsEveryEligible(p, labelled, facts, exportedAt)
            && row in p.decisionRows && BucketOf(row) == Eligible ==>
              PointOf(row, p) == Point(row, p.exportedAt, Some(OutcomeOf(row, facts, exportedAt)), "")
  {
    if LabelsEveryEligible(p, labelled, facts, exportedAt) && row in p.decisionRows && BucketOf(row) == Eligible {
      var k :| 0 <= k < |labelled| && labelled[k] == row;
      var f := facts(row);
      OneFor(labelled, Labeller(facts, exportedAt), k);
      LabelsPassBothChecks(row.decisionId, row.occurredAt.value, f.anchorCategory, f.block, exportedAt, f.observations,
                           p.exportedAt.Some?);
    }
  }

  predicate AllMeasured(points: seq<Point>) {
    forall k :: 0 <= k < |points| ==> points[k].outcome.Some? && points[k].noOutcome == ""
  }

  lemma LabelledExportIsMeasured(p: Participant)
    requires IsLabelled(p)
    ensures AllMeasured(ContentsOf(p).eligible)
  {
    var labelled, facts, exportedAt :| LabelsEveryEligible(p, labelled, facts, exportedAt);
    var rows := Filter(p.decisionRows, InBucket(Eligible));
    forall k | 0 <= k < |rows| ensures PointOf(rows[k], p).outcome.Some? && PointOf(rows[k], p).noOutcome == "" {
      FilterMembers(p.decisionRows, InBucket(Eligible), rows[k]);
      LabelledIsMeasured(p, labelled, facts, exportedAt, rows[k]);
    }
  }

  /** End to end: when every export labels its eligible decisions, no eligible point of the cohort is
      unmeasured. */
  lemma {:induction false} LabelledCohortIsMeasured(ps: seq<Participant>)
    requires forall i :: 0 <= i < |ps| ==> IsLabelled(ps[i])
    ensures AllMeasured(CohortOf(ps).eligible)
  {
    if ps != [] {
      LabelledCohortIsMeasured(ps[..|ps| - 1]);
      LabelledExportIsMeasured(ps[|ps| - 1]);
    }
  }
}
