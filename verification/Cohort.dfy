/** The cohort's accounting: which outcome rows are usable, where every decision and every offer lands,
    and the denominators of the primary outcome. */
module Cohort {
  import opened Prelude
  import opened Sorting
  import opened OutcomeLabels

  const ANALYSED_POLICY_VERSION: int := 5
  const WARMUP_EXCLUSION_SECONDS: int := 180
  const RETURN_WINDOW_SECONDS: int := 600

  // ----- The outcome table --------------------------------------------------

  function ForDecision(id: string): OutcomeRow -> bool { (r: OutcomeRow) => r.decisionId == id }

  function RowsFor(rows: seq<OutcomeRow>, id: string): seq<OutcomeRow> { Filter(rows, ForDecision(id)) }

  /** One row names the decision, and it is valid. */
  predicate Usable(rows: seq<OutcomeRow>, id: string) {
    |RowsFor(rows, id)| == 1 && OutcomeProblem(RowsFor(rows, id)[0]) == None
  }

  predicate TableAt(rows: seq<OutcomeRow>, outcomes: map<string, OutcomeRow>, unusable: set<string>, id: string) {
    && (id in outcomes <==> Usable(rows, id))
    && (id in outcomes ==> outcomes[id] == RowsFor(rows, id)[0])
    && (id in unusable <==> RowsFor(rows, id) != [] && !Usable(rows, id))
  }

  ghost predicate IsOutcomeTable(rows: seq<OutcomeRow>, outcomes: map<string, OutcomeRow>, unusable: set<string>) {
    forall id :: TableAt(rows, outcomes, unusable, id)
  }

  lemma RowsForSnoc(rows: seq<OutcomeRow>, i: nat, id: string)
    requires i < |rows|
    ensures RowsFor(rows[..i + 1], id) ==
            if rows[i].decisionId == id then RowsFor(rows[..i], id) + [rows[i]] else RowsFor(rows[..i], id)
  {
    assert rows[..i + 1] == rows[..i] + [rows[i]];
    FilterSnoc(rows[..i], rows[i], ForDecision(id));
  }

  lemma TableStepAt(
    rows: seq<OutcomeRow>, i: nat, outcomes: map<string, OutcomeRow>, unusable: set<string>, other: string)
    requires i < |rows| && IsOutcomeTable(rows[..i], outcomes, unusable)
    ensures var id := rows[i].decisionId;
      if id in outcomes || id in unusable || OutcomeProblem(rows[i]).Some?
      then TableAt(rows[..i + 1], outcomes - {id}, unusable + {id}, other)
      else TableAt(rows[..i + 1], outcomes[id := rows[i]], unusable, other)
  {
    RowsForSnoc(rows, i, other);
    assert TableAt(rows[..i], outcomes, unusable, other);
  }

  lemma TableStep(
    rows: seq<OutcomeRow>, i: nat, outcomes: map<string, OutcomeRow>, unusable: set<string>)
    requires i < |rows| && IsOutcomeTable(rows[..i], outcomes, unusable)
    ensures var id := rows[i].decisionId;
      if id in outcomes || id in unusable || OutcomeProblem(rows[i]).Some?
      then IsOutcomeTable(rows[..i + 1], outcomes - {id}, unusable + {id})
      else IsOutcomeTable(rows[..i + 1], outcomes[id := rows[i]], unusable)
  {
    var id := rows[i].decisionId;
    var usable := !(id in outcomes || id in unusable || OutcomeProblem(rows[i]).Some?);
    var outcomes' := if usable then outcomes[id := rows[i]] else outcomes - {id};
    var unusable' := if usable then unusable else unusable + {id};
    var next := rows[..i + 1];
    forall other ensures TableAt(next, outcomes', unusable', other) {
      TableStepAt(rows, i, outcomes, unusable, other);
    }
  }

  /** The table keeps exactly the decisions named by one row that is valid. */
  method LoadOutcomes(rows: seq<OutcomeRow>) returns (outcomes: map<string, OutcomeRow>, unusable: set<string>)
    ensures IsOutcomeTable(rows, outcomes, unusable)
  {
    outcomes, unusable := map[], {};
    for i := 0 to |rows|
      invariant IsOutcomeTable(rows[..i], outcomes, unusable)
    {
      var row := rows[i];
      var id := row.decisionId;
      var second := id in outcomes || id in unusable;
      TableStep(rows, i, outcomes, unusable);
      if second || OutcomeProblem(row).Some? {
        outcomes := outcomes - {id};
        unusable := unusable + {id};
      } else {
        outcomes := outcomes[id := row];
      }
    }
    assert rows[..|rows|] == rows;
  }

  lemma {:induction false} FilterMultiset<T(!new)>(s: seq<T>, p: T -> bool, x: T)
    ensures multiset(Filter(s, p))[x] == if p(x) then multiset(s)[x] else 0
  {
    if s != [] {
      FilterMultiset(s[..|s| - 1], p, x);
      assert s == s[..|s| - 1] + [s[|s| - 1]];
    }
  }

  lemma RowsForPermuted(rows: seq<OutcomeRow>, others: seq<OutcomeRow>, id: string)
    requires multiset(rows) == multiset(others)
    ensures |RowsFor(rows, id)| == |RowsFor(others, id)|
    ensures |RowsFor(rows, id)| == 1 ==> RowsFor(rows, id) == RowsFor(others, id)
  {
    var a, b := RowsFor(rows, id), RowsFor(others, id);
    forall x ensures multiset(a)[x] == multiset(b)[x] {
      FilterMultiset(rows, ForDecision(id), x);
      FilterMultiset(others, ForDecision(id), x);
    }
    assert multiset(a) == multiset(b);
    assert |multiset(a)| == |multiset(b)|;
    if |a| == 1 {
      assert a[0] in multiset(b);
    }
  }

  lemma UsablePermuted(rows: seq<OutcomeRow>, others: seq<OutcomeRow>, id: string)
    requires multiset(rows) == multiset(others)
    ensures Usable(rows, id) <==> Usable(others, id)
    ensures Usable(rows, id) ==> RowsFor(rows, id)[0] == RowsFor(others, id)[0]
    ensures RowsFor(rows, id) == [] <==> RowsFor(others, id) == []
  {
    RowsForPermuted(rows, others, id);
  }

  /** Row order does not matter: the same rows in any order make the same table. */
  lemma TableIgnoresOrder(
    rows: seq<OutcomeRow>, others: seq<OutcomeRow>,
    outcomes: map<string, OutcomeRow>, unusable: set<string>,
    outcomes': map<string, OutcomeRow>, unusable': set<string>)
    requires multiset(rows) == multiset(others)
    requires IsOutcomeTable(rows, outcomes, unusable) && IsOutcomeTable(others, outcomes', unusable')
    ensures outcomes == outcomes' && unusable == unusable'
  {
    forall id
      ensures id in outcomes <==> id in outcomes'
      ensures id in outcomes ==> outcomes[id] == outcomes'[id]
      ensures id in unusable <==> id in unusable'
    {
      UsablePermuted(rows, others, id);
      assert TableAt(rows, outcomes, unusable, id) && TableAt(others, outcomes', unusable', id);
    }
  }

  // ----- Counters -----------------------------------------------------------

  function KeyBag<K(==)>(key: Option<K>): multiset<K> {
    if key.Some? then multiset{key.value} else multiset{}
  }

  /** A Python `Counter` over the keys of a list, where an element may have none. */
  function CounterOf<T, K(==)>(s: seq<T>, key: T -> Option<K>): multiset<K> {
    if s == [] then multiset{} else CounterOf(s[..|s| - 1], key) + KeyBag(key(s[|s| - 1]))
  }

  lemma CounterStep<T, K>(s: seq<T>, i: nat, key: T -> Option<K>)
    requires i < |s|
    ensures CounterOf(s[..i + 1], key) == CounterOf(s[..i], key) + KeyBag(key(s[i]))
  {
    assert s[..i + 1][..i] == s[..i];
  }

  lemma {:induction false} CounterSame<T, K>(s: seq<T>, key: T -> Option<K>, other: T -> Option<K>)
    requires forall i :: 0 <= i < |s| ==> key(s[i]) == other(s[i])
    ensures CounterOf(s, key) == CounterOf(s, other)
  {
    if s != [] {
      CounterSame(s[..|s| - 1], key, other);
    }
  }

  lemma {:induction false} FilterSame<T(!new)>(s: seq<T>, p: T -> bool, q: T -> bool)
    requires forall i :: 0 <= i < |s| ==> p(s[i]) == q(s[i])
    ensures Filter(s, p) == Filter(s, q)
  {
    if s != [] {
      FilterSame(s[..|s| - 1], p, q);
    }
  }

  // ----- Decisions ----------------------------------------------------------

  datatype DecisionRow = DecisionRow(
    decisionId: string,
    blockId: string,
    policyVersion: Option<int>,
    verdict: string,
    occurredAt: Option<int>,
    blockStartedAt: Option<int>,
    blockEndedAt: Option<int>,
    blockPausedSeconds: Option<int>)

  const GATE_VERDICTS: seq<string> := [
    "offered", "abstained_warmup", "abstained_remaining", "abstained_block_cap", "abstained_backoff",
    "abstained_no_anchor", "abstained_min_switches", "abstained_at_anchor", "withheld_demotion", "suppressed_dnd"]

  const ATTRIBUTING_VERDICTS: seq<string> := ["offered", "withheld_demotion", "suppressed_dnd"]

  function Elapsed(started: Option<int>, ended: Option<int>, paused: Option<int>): Option<int> {
    if started.None? || ended.None? then None
    else Some(ended.value - started.value - (if paused.Some? then paused.value else 0))
  }

  predicate InWarmUp(elapsed: Option<int>) { elapsed.Some? && elapsed.value < WARMUP_EXCLUSION_SECONDS }

  predicate IsMalformed(row: DecisionRow) {
    row.policyVersion.None? || row.verdict !in GATE_VERDICTS || row.occurredAt.None?
  }

  datatype DecisionBucket = MalformedDecision | OtherPolicy | NotOffered | WarmedUpTooLittle | Eligible

  function BucketOf(row: DecisionRow): DecisionBucket {
    if IsMalformed(row) then MalformedDecision
    else if row.policyVersion.value != ANALYSED_POLICY_VERSION then OtherPolicy
    else if row.verdict != "offered" then NotOffered
    else if InWarmUp(Elapsed(row.blockStartedAt, row.blockEndedAt, row.blockPausedSeconds)) then WarmedUpTooLittle
    else Eligible
  }

  function InBucket(bucket: DecisionBucket): DecisionRow -> bool { (row: DecisionRow) => BucketOf(row) == bucket }

  function PolicyKey(): DecisionRow -> Option<int> {
    (row: DecisionRow) => if IsMalformed(row) then None else row.policyVersion
  }

  /** An eligible decision point: its outcome row, or why it has none. */
  datatype Point = Point(row: DecisionRow, exportedAt: Option<int>, outcome: Option<OutcomeRow>, noOutcome: string)

  /** The outcomes file of one export, or why there is none to use. */
  datatype OutcomesFile =
    | Missing(unusableReason: string)
    | Loaded(outcomes: map<string, OutcomeRow>, unusable: set<string>)

  const NO_FILE: string := "no outcomes file (an export from before export format 4)"
  const BAD_ROW: string := "outcome row malformed"
  const NO_ROW: string := "no row for this decision in the outcomes file"
  const CONTRADICTS: string := "outcome row contradicts the decisions file"

  function PointFor(row: DecisionRow, file: OutcomesFile, exportedAt: Option<int>): Point {
    match file
    case Missing(reason) => Point(row, exportedAt, None, if reason != "" then reason else NO_FILE)
    case Loaded(outcomes, unusable) =>
      if row.decisionId in unusable then Point(row, exportedAt, None, BAD_ROW)
      else if row.decisionId !in outcomes then Point(row, exportedAt, None, NO_ROW)
      else if OutcomeDisagreement(row.occurredAt, row.blockEndedAt, outcomes[row.decisionId], exportedAt).Some?
      then Point(row, exportedAt, None, CONTRADICTS)
      else Point(row, exportedAt, Some(outcomes[row.decisionId]), "")
  }

  function PointsFor(rows: seq<DecisionRow>, file: OutcomesFile, exportedAt: Option<int>): seq<Point> {
    if rows == [] then []
    else PointsFor(rows[..|rows| - 1], file, exportedAt) + [PointFor(rows[|rows| - 1], file, exportedAt)]
  }

  predicate Attributes(row: DecisionRow, blockId: string, version: int) {
    && !IsMalformed(row)
    && row.verdict in ATTRIBUTING_VERDICTS
    && blockId != "" && row.blockId == blockId
    && row.policyVersion == Some(version)
  }

  /** Some decision row of the block, with a verdict that writes an offer row, has this policy version. */
  ghost predicate Attributed(rows: seq<DecisionRow>, blockId: string, version: int) {
    exists i :: 0 <= i < |rows| && Attributes(rows[i], blockId, version)
  }

  type Attribution = map<string, set<int>>

  function VersionsOf(attribution: Attribution, blockId: string): set<int> {
    if blockId in attribution then attribution[blockId] else {}
  }

  ghost predicate IsAttribution(rows: seq<DecisionRow>, attribution: Attribution) {
    forall blockId, version :: version in VersionsOf(attribution, blockId) <==> Attributed(rows, blockId, version)
  }

  lemma AttributedSnoc(rows: seq<DecisionRow>, i: nat, blockId: string, version: int)
    requires i < |rows|
    ensures Attributed(rows[..i + 1], blockId, version) <==>
            Attributed(rows[..i], blockId, version) || Attributes(rows[i], blockId, version)
  {
    assert rows[..i + 1][i] == rows[i];
    if Attributed(rows[..i], blockId, version) {
      var j :| 0 <= j < i && Attributes(rows[..i][j], blockId, version);
      assert Attributes(rows[..i + 1][j], blockId, version);
    }
    if Attributed(rows[..i + 1], blockId, version) && !Attributes(rows[i], blockId, version) {
      var j :| 0 <= j < i + 1 && Attributes(rows[..i + 1][j], blockId, version);
      assert Attributes(rows[..i][j], blockId, version);
    }
  }

  // ----- Offers -------------------------------------------------------------

  datatype OfferRow = OfferRow(
    blockId: string,
    outcome: string,
    salience: string,
    startedAt: Option<int>,
    endedAt: Option<int>,
    pausedSeconds: Option<int>,
    offeredAt: Option<int>,
    outcomeAt: Option<int>,
    returnedFlag: string,
    cardSeen: string,
    cardSeenAt: string)

  datatype Offer = Offer(
    blockId: string,
    outcome: string,
    salience: string,
    offeredAt: int,
    outcomeAt: Option<int>,
    returnedWithinWindow: bool,
    cardSeen: string)

  const DELIVERED_TERMINAL_OUTCOMES: seq<string> := [
    "accepted_action", "returned", "not_helpful", "wrong_classification", "was_focused", "dismissed", "no_response"]

  const WITHHELD_TERMINAL_OUTCOMES: seq<string> := ["delivery_suppressed_dnd", "withheld_demotion"]

  predicate KnownOutcome(outcome: string) {
    outcome in DELIVERED_TERMINAL_OUTCOMES || outcome in WITHHELD_TERMINAL_OUTCOMES || outcome == "offered"
  }

  datatype OfferBucket =
    MalformedOffer | Unattributed | Conflicting | UnderOtherPolicy | OfferInWarmUp | Withheld | Delivered

  function OfferBucketOf(row: OfferRow, versions: set<int>): OfferBucket {
    if !KnownOutcome(row.outcome) then MalformedOffer
    else if versions == {} then Unattributed
    else if |versions| > 1 then Conflicting
    else if ANALYSED_POLICY_VERSION !in versions then UnderOtherPolicy
    else if InWarmUp(Elapsed(row.startedAt, row.endedAt, row.pausedSeconds)) then OfferInWarmUp
    else if row.outcome in WITHHELD_TERMINAL_OUTCOMES then Withheld
    else Delivered
  }

  predicate IsKept(bucket: OfferBucket) { bucket == Withheld || bucket == Delivered }

  function InOfferBucket(bucket: OfferBucket, attribution: Attribution): OfferRow -> bool {
    (row: OfferRow) => OfferBucketOf(row, VersionsOf(attribution, row.blockId)) == bucket
  }

  function IsExcludedOffer(attribution: Attribution): OfferRow -> bool {
    (row: OfferRow) =>
      var bucket := OfferBucketOf(row, VersionsOf(attribution, row.blockId));
      bucket != MalformedOffer && !IsKept(bucket)
  }

  /** What the attribution counter counts an offer under. */
  datatype AttributedTo = NoVersion | ManyVersions | OneVersion(version: int)

  function AttributedToOf(versions: set<int>): AttributedTo {
    if versions == {} then NoVersion
    else if |versions| > 1 then ManyVersions
    else OneVersion(TheOne(versions))
  }

  /** The element of a set of one. */
  function TheOne(versions: set<int>): int
    requires |versions| == 1
  {
    SingletonIsUnique(versions);
    var v :| v in versions;
    v
  }

  lemma SingletonIsUnique(versions: set<int>)
    requires |versions| == 1
    ensures exists v :: v in versions
    ensures forall v, w :: v in versions && w in versions ==> v == w
  {
    if forall v :: v !in versions {
      assert false;
    }
    forall v, w | v in versions && w in versions ensures v == w {
      assert |versions - {v}| == 0;
      assert w !in versions - {v};
    }
  }

  function AttributionKey(attribution: Attribution): OfferRow -> Option<AttributedTo> {
    (row: OfferRow) =>
      if KnownOutcome(row.outcome) then Some(AttributedToOf(VersionsOf(attribution, row.blockId))) else None
  }

  function OfferedAt(row: OfferRow): int { if row.offeredAt.Some? then row.offeredAt.value else 0 }

  function Returned(row: OfferRow): bool {
    if row.returnedFlag == "0" || row.returnedFlag == "1" then row.returnedFlag == "1"
    else row.outcome == "returned" && row.outcomeAt.Some?
         && row.outcomeAt.value - OfferedAt(row) <= RETURN_WINDOW_SECONDS
  }

  function CardSeen(row: OfferRow): string {
    if row.cardSeen == "seen" || row.cardSeen == "unseen" || row.cardSeen == "unknown" then row.cardSeen
    else if row.cardSeenAt != "" then "seen" else "unknown"
  }

  function OfferFor(row: OfferRow): Offer {
    Offer(row.blockId, row.outcome, if row.salience != "" then row.salience else "normal",
          OfferedAt(row), row.outcomeAt,
          row.outcome !in WITHHELD_TERMINAL_OUTCOMES && Returned(row),
          CardSeen(row))
  }

  function OffersFor(rows: seq<OfferRow>): seq<Offer> {
    if rows == [] then [] else OffersFor(rows[..|rows| - 1]) + [OfferFor(rows[|rows| - 1])]
  }

  // ----- The cohort ---------------------------------------------------------

  datatype Participant = Participant(
    decisionRows: seq<DecisionRow>,
    offerRows: seq<OfferRow>,
    outcomeRows: Option<seq<OutcomeRow>>,
    outcomesUnusable: string,
    exportedAt: Option<int>)

  class CohortData {
    var malformedDecisions: seq<DecisionRow>
    var otherPolicyDecisions: seq<DecisionRow>
    var analysedDecisions: seq<DecisionRow>
    var excludedDecisions: seq<DecisionRow>
    var eligible: seq<Point>
    var decisionsByPolicy: multiset<int>
    var malformedOffers: seq<OfferRow>
    var excludedOffers: seq<OfferRow>
    var withheld: seq<Offer>
    var offers: seq<Offer>
    var offersByAttribution: multiset<AttributedTo>

    ghost function Held(): Contents
      reads this
    {
      Contents(malformedDecisions, otherPolicyDecisions, analysedDecisions, excludedDecisions, eligible,
               decisionsByPolicy, malformedOffers, excludedOffers, withheld, offers, offersByAttribution)
    }

    constructor ()
      ensures Held() == NOTHING
    {
      decisionsByPolicy, offersByAttribution := multiset{}, multiset{};
      malformedDecisions, otherPolicyDecisions, analysedDecisions := [], [], [];
      excludedDecisions, eligible := [], [];
      malformedOffers, excludedOffers, withheld, offers := [], [], [], [];
    }

    /** One decision row joins the list of its own bucket and no other; the analysed list takes all three
        buckets of the analysed policy. */
    method AddDecision(row: DecisionRow, file: OutcomesFile, exportedAt: Option<int>)
      modifies this`malformedDecisions, this`otherPolicyDecisions, this`analysedDecisions,
               this`excludedDecisions, this`eligible, this`decisionsByPolicy
      ensures malformedDecisions == old(malformedDecisions) + One(row, InBucket(MalformedDecision))
      ensures otherPolicyDecisions == old(otherPolicyDecisions) + One(row, InBucket(OtherPolicy))
      ensures analysedDecisions == old(analysedDecisions) + One(row, UnderAnalysedPolicy())
      ensures excludedDecisions == old(excludedDecisions) + One(row, InBucket(WarmedUpTooLittle))
      ensures eligible == old(eligible) + PointsFor(One(row, InBucket(Eligible)), file, exportedAt)
      ensures decisionsByPolicy == old(decisionsByPolicy) + KeyBag(PolicyKey()(row))
    {
      if IsMalformed(row) {
        malformedDecisions := malformedDecisions + [row];
        return;
      }
      decisionsByPolicy := decisionsByPolicy + multiset{row.policyVersion.value};
      if row.policyVersion.value != ANALYSED_POLICY_VERSION {
        otherPolicyDecisions := otherPolicyDecisions + [row];
        return;
      }
      analysedDecisions := analysedDecisions + [row];
      if row.verdict != "offered" {
        return;
      }
      if InWarmUp(Elapsed(row.blockStartedAt, row.blockEndedAt, row.blockPausedSeconds)) {
        excludedDecisions := excludedDecisions + [row];
        return;
      }
      eligible := eligible + [PointFor(row, file, exportedAt)];
    }

    /** Every decision row is added, in order, to the list of its bucket. */
    method LoadDecisions(rows: seq<DecisionRow>, file: OutcomesFile, exportedAt: Option<int>)
      returns (attribution: Attribution)
      modifies this`malformedDecisions, this`otherPolicyDecisions, this`analysedDecisions,
               this`excludedDecisions, this`eligible, this`decisionsByPolicy
      ensures IsAttribution(rows, attribution)
      ensures malformedDecisions == old(malformedDecisions) + Filter(rows, InBucket(MalformedDecision))
      ensures otherPolicyDecisions == old(otherPolicyDecisions) + Filter(rows, InBucket(OtherPolicy))
      ensures analysedDecisions == old(analysedDecisions) + Filter(rows, UnderAnalysedPolicy())
      ensures excludedDecisions == old(excludedDecisions) + Filter(rows, InBucket(WarmedUpTooLittle))
      ensures eligible == old(eligible) + PointsFor(Filter(rows, InBucket(Eligible)), file, exportedAt)
      ensures decisionsByPolicy == old(decisionsByPolicy) + CounterOf(rows, PolicyKey())
    {
      attribution := map[];
      for i := 0 to |rows|
        invariant IsAttribution(rows[..i], attribution)
        invariant malformedDecisions == old(malformedDecisions) + Filter(rows[..i], InBucket(MalformedDecision))
        invariant otherPolicyDecisions == old(otherPolicyDecisions) + Filter(rows[..i], InBucket(OtherPolicy))
        invariant analysedDecisions == old(analysedDecisions) + Filter(rows[..i], UnderAnalysedPolicy())
        invariant excludedDecisions == old(excludedDecisions) + Filter(rows[..i], InBucket(WarmedUpTooLittle))
        invariant eligible == old(eligible) + PointsFor(Filter(rows[..i], InBucket(Eligible)), file, exportedAt)
        invariant decisionsByPolicy == old(decisionsByPolicy) + CounterOf(rows[..i], PolicyKey())
      {
        AppendStep(old(malformedDecisions), rows, i, InBucket(MalformedDecision));
        AppendStep(old(otherPolicyDecisions), rows, i, InBucket(OtherPolicy));
        AppendStep(old(analysedDecisions), rows, i, UnderAnalysedPolicy());
        AppendStep(old(excludedDecisions), rows, i, InBucket(WarmedUpTooLittle));
        AppendPoints(old(eligible), rows, i, file, exportedAt);
        CounterStep(rows, i, PolicyKey());
        attribution := Attribute(attribution, rows, i);
        AddDecision(rows[i], file, exportedAt);
      }
      assert rows[..|rows|] == rows;
    }

    /** One offer row joins exactly one list. */
    method AddOffer(row: OfferRow, attribution: Attribution)
      modifies this`malformedOffers, this`excludedOffers, this`withheld, this`offers, this`offersByAttribution
      ensures malformedOffers == old(malformedOffers) + One(row, InOfferBucket(MalformedOffer, attribution))
      ensures excludedOffers == old(excludedOffers) + One(row, IsExcludedOffer(attribution))
      ensures withheld == old(withheld) + OffersFor(One(row, InOfferBucket(Withheld, attribution)))
      ensures offers == old(offers) + OffersFor(One(row, InOfferBucket(Delivered, attribution)))
      ensures offersByAttribution == old(offersByAttribution) + KeyBag(AttributionKey(attribution)(row))
    {
      if !KnownOutcome(row.outcome) {
        malformedOffers := malformedOffers + [row];
        return;
      }
      var versions := VersionsOf(attribution, row.blockId);
      offersByAttribution := offersByAttribution + multiset{AttributedToOf(versions)};
      if versions == {} || |versions| > 1 || ANALYSED_POLICY_VERSION !in versions
         || InWarmUp(Elapsed(row.startedAt, row.endedAt, row.pausedSeconds)) {
        excludedOffers := excludedOffers + [row];
        return;
      }
      if row.outcome in WITHHELD_TERMINAL_OUTCOMES {
        withheld := withheld + [OfferFor(row)];
      } else {
        offers := offers + [OfferFor(row)];
      }
    }

    /** Every offer row is added, in order, to one list. */
    method LoadOffers(rows: seq<OfferRow>, attribution: Attribution)
      modifies this`malformedOffers, this`excludedOffers, this`withheld, this`offers, this`offersByAttribution
      ensures malformedOffers == old(malformedOffers) + Filter(rows, InOfferBucket(MalformedOffer, attribution))
      ensures excludedOffers == old(excludedOffers) + Filter(rows, IsExcludedOffer(attribution))
      ensures withheld == old(withheld) + OffersFor(Filter(rows, InOfferBucket(Withheld, attribution)))
      ensures offers == old(offers) + OffersFor(Filter(rows, InOfferBucket(Delivered, attribution)))
      ensures offersByAttribution == old(offersByAttribution) + CounterOf(rows, AttributionKey(attribution))
    {
      for i := 0 to |rows|
        invariant malformedOffers ==
          old(malformedOffers) + Filter(rows[..i], InOfferBucket(MalformedOffer, attribution))
        invariant excludedOffers == old(excludedOffers) + Filter(rows[..i], IsExcludedOffer(attribution))
        invariant withheld == old(withheld) + OffersFor(Filter(rows[..i], InOfferBucket(Withheld, attribution)))
        invariant offers == old(offers) + OffersFor(Filter(rows[..i], InOfferBucket(Delivered, attribution)))
        invariant offersByAttribution == old(offersByAttribution) + CounterOf(rows[..i], AttributionKey(attribution))
      {
        AppendStep(old(malformedOffers), rows, i, InOfferBucket(MalformedOffer, attribution));
        AppendStep(old(excludedOffers), rows, i, IsExcludedOffer(attribution));
        AppendOffers(old(withheld), rows, i, InOfferBucket(Withheld, attribution));
        AppendOffers(old(offers), rows, i, InOfferBucket(Delivered, attribution));
        CounterStep(rows, i, AttributionKey(attribution));
        AddOffer(rows[i], attribution);
      }
      assert rows[..|rows|] == rows;
    }

    /** One export: its outcome table, its decisions, then its offers under the attribution they give. The
        cohort grows by exactly what the export holds. */
    method LoadParticipant(p: Participant)
      modifies this
      ensures Held() == Joined(old(Held()), ContentsOf(p))
    {
      var file := Missing(p.outcomesUnusable);
      if p.outcomeRows.Some? {
        var outcomes, unusable := LoadOutcomes(p.outcomeRows.value);
        file := Loaded(outcomes, unusable);
      }
      var attribution := LoadDecisions(p.decisionRows, file, p.exportedAt);
      LoadOffers(p.offerRows, attribution);
      PointsAreOf(Filter(p.decisionRows, InBucket(Eligible)), file, p);
      OffersAreOf(p, attribution);
    }
  }

  /** Everything a cohort holds. */
  datatype Contents = Contents(
    malformedDecisions: seq<DecisionRow>,
    otherPolicyDecisions: seq<DecisionRow>,
    analysedDecisions: seq<DecisionRow>,
    excludedDecisions: seq<DecisionRow>,
    eligible: seq<Point>,
    decisionsByPolicy: multiset<int>,
    malformedOffers: seq<OfferRow>,
    excludedOffers: seq<OfferRow>,
    withheld: seq<Offer>,
    offers: seq<Offer>,
    offersByAttribution: multiset<AttributedTo>)

  const NOTHING: Contents := Contents([], [], [], [], [], multiset{}, [], [], [], [], multiset{})

  function Joined(a: Contents, b: Contents): Contents {
    Contents(a.malformedDecisions + b.malformedDecisions, a.otherPolicyDecisions + b.otherPolicyDecisions,
             a.analysedDecisions + b.analysedDecisions, a.excludedDecisions + b.excludedDecisions,
             a.eligible + b.eligible, a.decisionsByPolicy + b.decisionsByPolicy,
             a.malformedOffers + b.malformedOffers, a.excludedOffers + b.excludedOffers,
             a.withheld + b.withheld, a.offers + b.offers, a.offersByAttribution + b.offersByAttribution)
  }

  /** The policy versions of the block's attributing decision rows. */
  function VersionsIn(decisions: seq<DecisionRow>, blockId: string): set<int> {
    set i | 0 <= i < |decisions| && decisions[i].policyVersion.Some?
            && Attributes(decisions[i], blockId, decisions[i].policyVersion.value) :: decisions[i].policyVersion.value
  }

  function OfferBucketIn(row: OfferRow, decisions: seq<DecisionRow>): OfferBucket {
    OfferBucketOf(row, VersionsIn(decisions, row.blockId))
  }

  function OfferIs(bucket: OfferBucket, decisions: seq<DecisionRow>): OfferRow -> bool {
    (row: OfferRow) => OfferBucketIn(row, decisions) == bucket
  }

  function OfferIsExcluded(decisions: seq<DecisionRow>): OfferRow -> bool {
    (row: OfferRow) => OfferBucketIn(row, decisions) != MalformedOffer && !IsKept(OfferBucketIn(row, decisions))
  }

  function OfferKey(decisions: seq<DecisionRow>): OfferRow -> Option<AttributedTo> {
    (row: OfferRow) =>
      if KnownOutcome(row.outcome) then Some(AttributedToOf(VersionsIn(decisions, row.blockId))) else None
  }

  /** The point of an eligible decision, from the rows of its own export: measured exactly when one outcome
      row names it and passes both checks. */
  function PointOf(row: DecisionRow, p: Participant): Point {
    if p.outcomeRows.None? then
      Point(row, p.exportedAt, None, if p.outcomesUnusable != "" then p.outcomesUnusable else NO_FILE)
    else
      var found := RowsFor(p.outcomeRows.value, row.decisionId);
      if found == [] then Point(row, p.exportedAt, None, NO_ROW)
      else if !Usable(p.outcomeRows.value, row.decisionId) then Point(row, p.exportedAt, None, BAD_ROW)
      else if OutcomeDisagreement(row.occurredAt, row.blockEndedAt, found[0], p.exportedAt).Some?
      then Point(row, p.exportedAt, None, CONTRADICTS)
      else Point(row, p.exportedAt, Some(found[0]), "")
  }

  function PointsOf(rows: seq<DecisionRow>, p: Participant): (points: seq<Point>)
    ensures |points| == |rows|
    ensures forall i :: 0 <= i < |rows| ==> points[i] == PointOf(rows[i], p)
  {
    seq(|rows|, i requires 0 <= i < |rows| => PointOf(rows[i], p))
  }

  /** What one export adds to a cohort, read off its rows alone. */
  function ContentsOf(p: Participant): Contents {
    var decisions, rows := p.decisionRows, p.offerRows;
    Contents(
      Filter(decisions, InBucket(MalformedDecision)), Filter(decisions, InBucket(OtherPolicy)),
      Filter(decisions, UnderAnalysedPolicy()), Filter(decisions, InBucket(WarmedUpTooLittle)),
      PointsOf(Filter(decisions, InBucket(Eligible)), p), CounterOf(decisions, PolicyKey()),
      Filter(rows, OfferIs(MalformedOffer, decisions)), Filter(rows, OfferIsExcluded(decisions)),
      OffersFor(Filter(rows, OfferIs(Withheld, decisions))), OffersFor(Filter(rows, OfferIs(Delivered, decisions))),
      CounterOf(rows, OfferKey(decisions)))
  }

  lemma {:induction false} PointsAreOf(rows: seq<DecisionRow>, file: OutcomesFile, p: Participant)
    requires IsFileOf(file, p)
    ensures PointsFor(rows, file, p.exportedAt) == PointsOf(rows, p)
  {
    if rows != [] {
      var init, last := rows[..|rows| - 1], rows[|rows| - 1];
      PointsAreOf(init, file, p);
      PointIsOf(last, file, p);
    }
  }

  lemma PointIsOf(row: DecisionRow, file: OutcomesFile, p: Participant)
    requires IsFileOf(file, p)
    ensures PointFor(row, file, p.exportedAt) == PointOf(row, p)
  {
    if p.outcomeRows.Some? {
      assert TableAt(p.outcomeRows.value, file.outcomes, file.unusable, row.decisionId);
    }
  }

  lemma VersionsAreIn(decisions: seq<DecisionRow>, attribution: Attribution, blockId: string)
    requires IsAttribution(decisions, attribution)
    ensures VersionsOf(attribution, blockId) == VersionsIn(decisions, blockId)
  {
    forall version ensures version in VersionsOf(attribution, blockId) <==> version in VersionsIn(decisions, blockId) {
      AttributedIsIn(decisions, blockId, version);
    }
  }

  lemma AttributedIsIn(decisions: seq<DecisionRow>, blockId: string, version: int)
    ensures Attributed(decisions, blockId, version) <==> version in VersionsIn(decisions, blockId)
  {
    if Attributed(decisions, blockId, version) {
      var i :| 0 <= i < |decisions| && Attributes(decisions[i], blockId, version);
      assert decisions[i].policyVersion.value in VersionsIn(decisions, blockId);
    }
  }

  lemma OffersAreOf(p: Participant, attribution: Attribution)
    requires IsAttribution(p.decisionRows, attribution)
    ensures var decisions, rows := p.decisionRows, p.offerRows;
      && (forall bucket :: Filter(rows, InOfferBucket(bucket, attribution)) == Filter(rows, OfferIs(bucket, decisions)))
      && Filter(rows, IsExcludedOffer(attribution)) == Filter(rows, OfferIsExcluded(decisions))
      && CounterOf(rows, AttributionKey(attribution)) == CounterOf(rows, OfferKey(decisions))
  {
    var decisions, rows := p.decisionRows, p.offerRows;
    forall row: OfferRow ensures VersionsOf(attribution, row.blockId) == VersionsIn(decisions, row.blockId) {
      VersionsAreIn(decisions, attribution, row.blockId);
    }
    forall bucket ensures Filter(rows, InOfferBucket(bucket, attribution)) == Filter(rows, OfferIs(bucket, decisions)) {
      FilterSame(rows, InOfferBucket(bucket, attribution), OfferIs(bucket, decisions));
    }
    FilterSame(rows, IsExcludedOffer(attribution), OfferIsExcluded(decisions));
    CounterSame(rows, AttributionKey(attribution), OfferKey(decisions));
  }

  ghost predicate IsFileOf(file: OutcomesFile, p: Participant) {
    if p.outcomeRows.None? then file == Missing(p.outcomesUnusable)
    else file.Loaded? && IsOutcomeTable(p.outcomeRows.value, file.outcomes, file.unusable)
  }

  function UnderAnalysedPolicy(): DecisionRow -> bool {
    (row: DecisionRow) => BucketOf(row) != MalformedDecision && BucketOf(row) != OtherPolicy
  }

  /** The attribution map after row `i`. */
  method Attribute(attribution: Attribution, rows: seq<DecisionRow>, i: nat) returns (r: Attribution)
    requires i < |rows| && IsAttribution(rows[..i], attribution)
    ensures IsAttribution(rows[..i + 1], r)
  {
    var row := rows[i];
    r := attribution;
    if !IsMalformed(row) && row.verdict in ATTRIBUTING_VERDICTS && row.blockId != "" {
      r := attribution[row.blockId := VersionsOf(attribution, row.blockId) + {row.policyVersion.value}];
    }
    forall blockId, version
      ensures version in VersionsOf(r, blockId) <==> Attributed(rows[..i + 1], blockId, version)
    {
      AttributedSnoc(rows, i, blockId, version);
    }
  }

  function One<T(!new)>(x: T, p: T -> bool): seq<T> { if p(x) then [x] else [] }

  /** Filtering one more row appends it or nothing. */
  lemma AppendStep<T(!new)>(before: seq<T>, rows: seq<T>, i: nat, p: T -> bool)
    requires i < |rows|
    ensures Filter(rows[..i + 1], p) == Filter(rows[..i], p) + One(rows[i], p)
    ensures before + Filter(rows[..i + 1], p) == before + Filter(rows[..i], p) + One(rows[i], p)
  {
    assert rows[..i + 1] == rows[..i] + [rows[i]];
    FilterSnoc(rows[..i], rows[i], p);
  }

  lemma {:induction false} PointsForOne(
    rows: seq<DecisionRow>, row: DecisionRow, p: DecisionRow -> bool, file: OutcomesFile, exportedAt: Option<int>)
    ensures PointsFor(rows + One(row, p), file, exportedAt) ==
            PointsFor(rows, file, exportedAt) + PointsFor(One(row, p), file, exportedAt)
  {
    if p(row) {
      assert (rows + [row])[..|rows|] == rows;
      assert PointsFor([], file, exportedAt) == [];
    } else {
      assert rows + [] == rows;
    }
  }

  lemma {:induction false} AppendPoints(
    before: seq<Point>, rows: seq<DecisionRow>, i: nat, file: OutcomesFile, exportedAt: Option<int>)
    requires i < |rows|
    ensures var p := InBucket(Eligible);
      before + PointsFor(Filter(rows[..i + 1], p), file, exportedAt) ==
      before + PointsFor(Filter(rows[..i], p), file, exportedAt) + PointsFor(One(rows[i], p), file, exportedAt)
  {
    var p := InBucket(Eligible);
    AppendStep([], rows, i, p);
    PointsForOne(Filter(rows[..i], p), rows[i], p, file, exportedAt);
  }

  lemma {:induction false} OffersForOne(rows: seq<OfferRow>, row: OfferRow, p: OfferRow -> bool)
    ensures OffersFor(rows + One(row, p)) == OffersFor(rows) + OffersFor(One(row, p))
  {
    if p(row) {
      assert (rows + [row])[..|rows|] == rows;
      assert OffersFor([]) == [];
    } else {
      assert rows + [] == rows;
    }
  }

  lemma AppendOffers(before: seq<Offer>, rows: seq<OfferRow>, i: nat, p: OfferRow -> bool)
    requires i < |rows|
    ensures before + OffersFor(Filter(rows[..i + 1], p)) ==
            before + OffersFor(Filter(rows[..i], p)) + OffersFor(One(rows[i], p))
  {
    AppendStep([], rows, i, p);
    OffersForOne(Filter(rows[..i], p), rows[i], p);
  }
}
