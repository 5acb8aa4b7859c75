/** Where each row of an export ends up in the cohort, in terms of its own cells. */
module CohortMeaning {
  import opened Prelude
  import opened Sorting
  import opened OutcomeLabels
  import opened Cohort
  import PrimaryOutcome

  // ----- Decisions ----------------------------------------------------------

  /** The row has a policy, a time, and a verdict the gate gives. */
  predicate IsReadable(row: DecisionRow) {
    && row.policyVersion.Some? && row.occurredAt.Some?
    && row.verdict in ["offered", "abstained_warmup", "abstained_remaining", "abstained_block_cap", "abstained_backoff",
                       "abstained_no_anchor", "abstained_min_switches", "abstained_at_anchor", "withheld_demotion",
                       "suppressed_dnd"]
  }

  predicate IsOfferUnder5(row: DecisionRow) {
    IsReadable(row) && row.policyVersion.value == 5 && row.verdict == "offered"
  }

  /** A block known to have run for less than three minutes, pauses taken off. */
  predicate IsShort(started: Option<int>, ended: Option<int>, paused: Option<int>) {
    started.Some? && ended.Some? && ended.value - started.value - (if paused.Some? then paused.value else 0) < 180
  }

  predicate InShortBlock(row: DecisionRow) {
    IsShort(row.blockStartedAt, row.blockEndedAt, row.blockPausedSeconds)
  }

  lemma BucketMeans(row: DecisionRow)
    ensures BucketOf(row) == MalformedDecision <==> !IsReadable(row)
    ensures BucketOf(row) == OtherPolicy <==> IsReadable(row) && row.policyVersion.value != 5
    ensures BucketOf(row) == WarmedUpTooLittle <==> IsOfferUnder5(row) && InShortBlock(row)
    ensures BucketOf(row) == Eligible <==> IsOfferUnder5(row) && !InShortBlock(row)
  {
  }

  predicate HasPoint(points: seq<Point>, row: DecisionRow) {
    exists k :: 0 <= k < |points| && points[k].row == row
  }

  lemma PointsHoldRows(rows: seq<DecisionRow>, p: Participant, row: DecisionRow)
    ensures HasPoint(PointsOf(rows, p), row) <==> row in rows
  {
    if row in rows {
      var k :| 0 <= k < |rows| && rows[k] == row;
      assert PointsOf(rows, p)[k].row == row;
    }
  }

  /** A decision row is malformed, under another policy, or analysed; of the analysed, an offered one is excluded
      when its block is known to have run under three minutes, and eligible otherwise. */
  lemma DecisionIsPlaced(p: Participant, row: DecisionRow)
    ensures var c, given := ContentsOf(p), row in p.decisionRows;
      && (row in c.malformedDecisions <==> given && !IsReadable(row))
      && (row in c.otherPolicyDecisions <==> given && IsReadable(row) && row.policyVersion.value != 5)
      && (row in c.analysedDecisions <==> given && IsReadable(row) && row.policyVersion.value == 5)
      && (row in c.excludedDecisions <==> given && IsOfferUnder5(row) && InShortBlock(row))
      && (HasPoint(c.eligible, row) <==> given && IsOfferUnder5(row) && !InShortBlock(row))
  {
    BucketMeans(row);
    FilterMembers(p.decisionRows, InBucket(MalformedDecision), row);
    FilterMembers(p.decisionRows, InBucket(OtherPolicy), row);
    FilterMembers(p.decisionRows, UnderAnalysedPolicy(), row);
    FilterMembers(p.decisionRows, InBucket(WarmedUpTooLittle), row);
    FilterMembers(p.decisionRows, InBucket(Eligible), row);
    PointsHoldRows(Filter(p.decisionRows, InBucket(Eligible)), p, row);
  }

  // ----- Points -------------------------------------------------------------

  /** The one outcome row that names the decision, if there is one and it passes both checks. */
  predicate Measures(p: Participant, row: DecisionRow, outcome: OutcomeRow) {
    && p.outcomeRows.Some? && RowsFor(p.outcomeRows.value, row.decisionId) == [outcome]
    && OutcomeProblem(outcome) == None
    && OutcomeDisagreement(row.occurredAt, row.blockEndedAt, outcome, p.exportedAt) == None
  }

  function NoFileReason(p: Participant): string {
    if p.outcomesUnusable != "" then p.outcomesUnusable
    else "no outcomes file (an export from before export format 4)"
  }

  /** A point carries the outcome row that measures it, or says why there is none: no file, no row, a row that is
      one of several or malformed, or a row that contradicts the decision. */
  lemma PointSays(p: Participant, row: DecisionRow, outcome: OutcomeRow)
    ensures var point := PointOf(row, p);
      && point.row == row && point.exportedAt == p.exportedAt
      && (point.outcome == Some(outcome) <==> Measures(p, row, outcome))
      && (point.outcome.Some? <==> point.noOutcome == "")
      && (p.outcomeRows.None? ==> point.noOutcome == NoFileReason(p))
      && (p.outcomeRows.Some? ==>
            var found := RowsFor(p.outcomeRows.value, row.decisionId);
            && (point.noOutcome == "no row for this decision in the outcomes file" <==> found == [])
            && (point.noOutcome == "outcome row malformed" <==>
                  |found| > 1 || (|found| == 1 && OutcomeProblem(found[0]).Some?)))
  {
    var point := PointOf(row, p);
    assert |NO_ROW| == 45 && |BAD_ROW| == 21 && |CONTRADICTS| == 42;
    if p.outcomeRows.Some? && point.outcome.Some? {
      var found := RowsFor(p.outcomeRows.value, row.decisionId);
      assert found == [found[0]];
    }
  }

  // ----- Offers -------------------------------------------------------------

  /** A decision that would have written an offer row for the block. */
  predicate WritesOffer(row: DecisionRow, blockId: string) {
    && IsReadable(row) && row.verdict in ["offered", "withheld_demotion", "suppressed_dnd"]
    && blockId != "" && row.blockId == blockId
  }

  /** Some decision wrote an offer for the block, and every one that did was under policy 5. */
  predicate IsUnder5(decisions: seq<DecisionRow>, blockId: string) {
    && (exists i :: 0 <= i < |decisions| && WritesOffer(decisions[i], blockId))
    && (forall i :: 0 <= i < |decisions| && WritesOffer(decisions[i], blockId) ==>
          decisions[i].policyVersion == Some(5))
  }

  lemma VersionsMean(decisions: seq<DecisionRow>, blockId: string, version: int)
    ensures version in VersionsIn(decisions, blockId) <==>
            exists i :: 0 <= i < |decisions| && WritesOffer(decisions[i], blockId)
                        && decisions[i].policyVersion == Some(version)
  {
    AttributedIsIn(decisions, blockId, version);
    if Attributed(decisions, blockId, version) {
      var i :| 0 <= i < |decisions| && Attributes(decisions[i], blockId, version);
      assert WritesOffer(decisions[i], blockId);
    }
    if i :| 0 <= i < |decisions| && WritesOffer(decisions[i], blockId) && decisions[i].policyVersion == Some(version) {
      assert Attributes(decisions[i], blockId, version);
    }
  }

  /** Attribution finds policy 5 alone exactly when every decision that wrote an offer was under it. */
  lemma Under5Means(decisions: seq<DecisionRow>, blockId: string)
    ensures VersionsIn(decisions, blockId) == {5} <==> IsUnder5(decisions, blockId)
  {
    var versions := VersionsIn(decisions, blockId);
    if versions == {5} {
      VersionsMean(decisions, blockId, 5);
      forall i | 0 <= i < |decisions| && WritesOffer(decisions[i], blockId)
        ensures decisions[i].policyVersion == Some(5)
      {
        VersionsMean(decisions, blockId, decisions[i].policyVersion.value);
      }
    }
    if IsUnder5(decisions, blockId) {
      forall version ensures version in versions <==> version == 5 {
        VersionsMean(decisions, blockId, version);
        var i :| 0 <= i < |decisions| && WritesOffer(decisions[i], blockId);
        assert decisions[i].policyVersion == Some(5);
      }
    }
  }

  predicate IsWithheldOutcome(outcome: string) { outcome in ["delivery_suppressed_dnd", "withheld_demotion"] }

  predicate IsOfferOutcome(outcome: string) {
    outcome in ["accepted_action", "returned", "not_helpful", "wrong_classification", "was_focused", "dismissed",
                "no_response", "delivery_suppressed_dnd", "withheld_demotion", "offered"]
  }

  predicate IsKeptOffer(p: Participant, row: OfferRow) {
    && IsOfferOutcome(row.outcome) && IsUnder5(p.decisionRows, row.blockId)
    && !IsShort(row.startedAt, row.endedAt, row.pausedSeconds)
  }

  lemma SizeOneWith5(versions: set<int>)
    ensures versions == {5} <==> versions != {} && |versions| <= 1 && 5 in versions
  {
    if versions != {} && |versions| <= 1 && 5 in versions {
      assert |versions - {5}| == 0;
    }
  }

  lemma OfferBucketMeans(p: Participant, row: OfferRow)
    ensures var bucket := OfferBucketIn(row, p.decisionRows);
      && (bucket == MalformedOffer <==> !IsOfferOutcome(row.outcome))
      && (bucket == Withheld <==> IsKeptOffer(p, row) && IsWithheldOutcome(row.outcome))
      && (bucket == Delivered <==> IsKeptOffer(p, row) && !IsWithheldOutcome(row.outcome))
  {
    SizeOneWith5(VersionsIn(p.decisionRows, row.blockId));
    Under5Means(p.decisionRows, row.blockId);
  }

  /** An offer row is malformed, excluded or kept: kept when its outcome is known, every decision that wrote an
      offer for its block was under policy 5, and the block is not known to have run under three minutes. */
  lemma OfferIsPlaced(p: Participant, row: OfferRow)
    ensures var c, given := ContentsOf(p), row in p.offerRows;
      && (row in c.malformedOffers <==> given && !IsOfferOutcome(row.outcome))
      && (row in c.excludedOffers <==> given && IsOfferOutcome(row.outcome) && !IsKeptOffer(p, row))
      && (given && IsKeptOffer(p, row) && IsWithheldOutcome(row.outcome) ==> OfferFor(row) in c.withheld)
      && (given && IsKeptOffer(p, row) && !IsWithheldOutcome(row.outcome) ==> OfferFor(row) in c.offers)
  {
    OfferBucketMeans(p, row);
    FilterMembers(p.offerRows, OfferIs(MalformedOffer, p.decisionRows), row);
    FilterMembers(p.offerRows, OfferIsExcluded(p.decisionRows), row);
    var bucket := if IsWithheldOutcome(row.outcome) then Withheld else Delivered;
    var kept := Filter(p.offerRows, OfferIs(bucket, p.decisionRows));
    FilterMembers(p.offerRows, OfferIs(bucket, p.decisionRows), row);
    PrimaryOutcome.OffersForEach(kept);
    if row in kept {
      var k :| 0 <= k < |kept| && kept[k] == row;
      assert OffersFor(kept)[k] == OfferFor(row);
    }
  }

  /** The offer is the record of a row of the export that is kept, withheld or not as its outcome says. */
  ghost predicate IsRecordOf(offer: Offer, p: Participant, withheld: bool) {
    exists row :: row in p.offerRows && IsKeptOffer(p, row) && IsWithheldOutcome(row.outcome) == withheld
                  && offer == OfferFor(row)
  }

  ghost predicate AreRecordsOf(offers: seq<Offer>, p: Participant, withheld: bool) {
    forall k :: 0 <= k < |offers| ==> IsRecordOf(offers[k], p, withheld)
  }

  /** Every offer kept is the record of such a row. */
  lemma KeptOffersAreRows(p: Participant)
    ensures AreRecordsOf(ContentsOf(p).withheld, p, true) && AreRecordsOf(ContentsOf(p).offers, p, false)
  {
    KeptRecords(p, Withheld);
    KeptRecords(p, Delivered);
  }

  lemma KeptRecords(p: Participant, bucket: OfferBucket)
    requires IsKept(bucket)
    ensures AreRecordsOf(OffersFor(Filter(p.offerRows, OfferIs(bucket, p.decisionRows))), p, bucket == Withheld)
  {
    var rows := Filter(p.offerRows, OfferIs(bucket, p.decisionRows));
    PrimaryOutcome.OffersForEach(rows);
    forall k | 0 <= k < |rows| ensures IsRecordOf(OffersFor(rows)[k], p, bucket == Withheld) {
      FilterMembers(p.offerRows, OfferIs(bucket, p.decisionRows), rows[k]);
      OfferBucketMeans(p, rows[k]);
    }
  }

  /** What an offer's record says: whether it was returned to within ten minutes, by the exporter's own cell or
      else by its outcome and times, and never if it was withheld; and whether its card was seen, where a time is
      proof of a sighting and anything else unclear is unknown, never unseen. */
  lemma OfferSays(row: OfferRow)
    ensures var offer := OfferFor(row);
            var offeredAt := if row.offeredAt.Some? then row.offeredAt.value else 0;
      && offer.blockId == row.blockId && offer.outcome == row.outcome && offer.outcomeAt == row.outcomeAt
      && offer.offeredAt == offeredAt
      && offer.salience == (if row.salience == "" then "normal" else row.salience)
      && (offer.returnedWithinWindow <==>
            && !IsWithheldOutcome(row.outcome)
            && (row.returnedFlag == "1" ||
                (row.returnedFlag != "0" && row.outcome == "returned" && row.outcomeAt.Some?
                 && row.outcomeAt.value - offeredAt <= 600)))
      && (offer.cardSeen == "unseen" <==> row.cardSeen == "unseen")
      && (offer.cardSeen == "seen" <==>
            row.cardSeen == "seen" || (row.cardSeen !in ["unseen", "unknown"] && row.cardSeenAt != ""))
      && offer.cardSeen in ["seen", "unseen", "unknown"]
  {
    assert "seen"[0] != "unseen"[0] && "unseen" != "unknown" && "seen"[0] != "unknown"[0];
  }
}
