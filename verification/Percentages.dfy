/** Whole percentages for a day's display buckets, by largest remainder. */
module Percentages {
  import opened Prelude
  import opened Sorting

  datatype Residual = Residual(index: nat, value: nat)

  /** Larger remainders first, ties in bucket order. */
  predicate Precedes(a: Residual, b: Residual) {
    a.value > b.value || (a.value == b.value && a.index <= b.index)
  }

  function Floors(seconds: seq<nat>, total: nat): (floors: seq<nat>)
    requires total > 0
    ensures |floors| == |seconds|
  {
    seq(|seconds|, i requires 0 <= i < |seconds| => seconds[i] * 100 / total)
  }

  function Residuals(seconds: seq<nat>, total: nat): (residuals: seq<Residual>)
    requires total > 0
    ensures |residuals| == |seconds|
  {
    seq(|seconds|, i requires 0 <= i < |seconds| => Residual(i, seconds[i] * 100 % total))
  }

  function Order(seconds: seq<nat>, total: nat): (order: seq<Residual>)
    requires total > 0
    ensures |order| == |seconds|
  {
    SortBy(Residuals(seconds, total), Precedes)
  }

  function Total(values: seq<nat>): nat {
    SumOver(values, (x: nat) => x)
  }

  /** Bucket `i` is among the first `k` of `order`. */
  ghost predicate Placed(order: seq<Residual>, k: nat, i: nat)
    requires k <= |order|
  {
    exists j :: 0 <= j < k && order[j].index == i
  }

  /** One more for each of the first `k` of `order`. */
  function Bumped(percentages: seq<nat>, order: seq<Residual>, k: nat): (r: seq<nat>)
    requires k <= |order|
    requires forall j :: 0 <= j < |order| ==> order[j].index < |percentages|
    ensures |r| == |percentages|
  {
    if k == 0 then percentages
    else
      var prior := Bumped(percentages, order, k - 1);
      prior[order[k - 1].index := prior[order[k - 1].index] + 1]
  }

  /** How many points are left to hand out, and there is one per bucket at most. */
  function Handed(seconds: seq<nat>, total: nat): nat
    requires total > 0
  {
    Min(|seconds|, Max(0, 100 - Total(Floors(seconds, total))))
  }

  function Shares(seconds: seq<nat>, total: nat): (r: seq<nat>)
    ensures |r| == |seconds|
  {
    if total == 0 then seq(|seconds|, i => 0)
    else
      OrderIsPermutation(seconds, total);
      Bumped(Floors(seconds, total), Order(seconds, total), Handed(seconds, total))
  }

  method BucketPercentages(seconds: seq<nat>, total: nat) returns (percentages: seq<nat>)
    ensures percentages == Shares(seconds, total)
  {
    if total == 0 {
      return seq(|seconds|, i => 0);
    }
    percentages := Floors(seconds, total);
    var handedOut: int := Total(percentages);
    var order := Order(seconds, total);
    OrderIsPermutation(seconds, total);
    var points: int := Max(0, 100 - handedOut);
    var k := 0;
    while k < |order| && k < points
      invariant 0 <= k <= Handed(seconds, total)
      invariant percentages == Bumped(Floors(seconds, total), order, k)
    {
      percentages := percentages[order[k].index := percentages[order[k].index] + 1];
      k := k + 1;
    }
  }

  // ----- The order is a permutation of the buckets --------------------------

  lemma PrecedesIsTotal()
    ensures TotalPreorder(Precedes)
  {
    assert forall x: Residual, y: Residual :: Comparable(Precedes, x, y);
    assert forall x: Residual, y: Residual, z: Residual :: Chains(Precedes, x, y, z);
  }

  /** Every bucket has exactly one place in the order. */
  lemma OrderIsPermutation(seconds: seq<nat>, total: nat)
    requires total > 0
    ensures var order := Order(seconds, total);
      && (forall j :: 0 <= j < |order| ==>
            order[j].index < |seconds| && order[j] == Residuals(seconds, total)[order[j].index])
      && (forall i, j :: 0 <= i < j < |order| ==> order[i].index != order[j].index)
      && (forall i :: 0 <= i < |seconds| ==> Placed(order, |order|, i))
      && Sorted(order, Precedes)
  {
    PrecedesIsTotal();
    SortBySorted(Residuals(seconds, total), Precedes);
    SortPermutes(Residuals(seconds, total), Precedes);
    PermutedIndices(Residuals(seconds, total), Order(seconds, total));
  }

  lemma PermutedIndices(residuals: seq<Residual>, order: seq<Residual>)
    requires multiset(order) == multiset(residuals)
    requires forall i :: 0 <= i < |residuals| ==> residuals[i].index == i
    ensures forall j :: 0 <= j < |order| ==>
              order[j].index < |residuals| && order[j] == residuals[order[j].index]
    ensures forall i, j :: 0 <= i < j < |order| ==> order[i].index != order[j].index
    ensures forall i :: 0 <= i < |residuals| ==> Placed(order, |order|, i)
  {
    forall j | 0 <= j < |order|
      ensures order[j].index < |residuals| && order[j] == residuals[order[j].index]
    {
      assert order[j] in multiset(order);
      assert order[j] in multiset(residuals);
    }
    forall i | 0 <= i < |residuals| ensures Placed(order, |order|, i) {
      assert residuals[i] in multiset(residuals);
      assert residuals[i] in multiset(order);
      var j :| 0 <= j < |order| && order[j] == residuals[i];
      assert order[j].index == i;
    }
    forall i, j | 0 <= i < j < |order| ensures order[i].index != order[j].index {
      DistinctOnce(residuals, order[i]);
      if order[i] == order[j] {
        TwiceInMultiset(order, i, j);
        assert false;
      }
    }
  }

  lemma {:induction false} DistinctOnce(residuals: seq<Residual>, r: Residual)
    requires forall i :: 0 <= i < |residuals| ==> residuals[i].index == i
    ensures multiset(residuals)[r] <= 1
  {
    if residuals != [] {
      var init, last := residuals[..|residuals| - 1], residuals[|residuals| - 1];
      assert residuals == init + [last];
      DistinctOnce(init, r);
      assert last !in multiset(init);
    }
  }

  lemma TwiceInMultiset(s: seq<Residual>, i: nat, j: nat)
    requires i < j < |s| && s[i] == s[j]
    ensures multiset(s)[s[i]] >= 2
  {
    assert s == s[..i] + [s[i]] + s[i + 1..j] + [s[j]] + s[j + 1..];
  }

  // ----- Sums ---------------------------------------------------------------

  lemma {:induction false} TotalUpdate(values: seq<nat>, i: nat, x: nat)
    requires i < |values|
    ensures Total(values[i := x]) + values[i] == Total(values) + x
  {
    var init, last := values[..|values| - 1], values[|values| - 1];
    if i == |values| - 1 {
      assert values[i := x][..|values| - 1] == init;
    } else {
      assert values[i := x][..|values| - 1] == init[i := x];
      TotalUpdate(init, i, x);
    }
  }

  lemma {:induction false} BumpedTotal(percentages: seq<nat>, order: seq<Residual>, k: nat)
    requires k <= |order|
    requires forall j :: 0 <= j < |order| ==> order[j].index < |percentages|
    ensures Total(Bumped(percentages, order, k)) == Total(percentages) + k
  {
    if k > 0 {
      BumpedTotal(percentages, order, k - 1);
      var prior := Bumped(percentages, order, k - 1);
      TotalUpdate(prior, order[k - 1].index, prior[order[k - 1].index] + 1);
    }
  }

  /** A bucket's result is its floor, plus one if it is among the first `k`. */
  lemma {:induction false} BumpedAt(percentages: seq<nat>, order: seq<Residual>, k: nat, i: nat)
    requires k <= |order| && i < |percentages|
    requires forall j :: 0 <= j < |order| ==> order[j].index < |percentages|
    requires forall a, b :: 0 <= a < b < |order| ==> order[a].index != order[b].index
    ensures Bumped(percentages, order, k)[i] ==
            percentages[i] + if Placed(order, k, i) then 1 else 0
  {
    if k > 0 {
      BumpedAt(percentages, order, k - 1, i);
      if order[k - 1].index == i {
        assert !exists j :: 0 <= j < k - 1 && order[j].index == i;
      } else {
        assert forall j :: 0 <= j < k && order[j].index == i ==> j < k - 1;
      }
    }
  }

  lemma DivMod(x: nat, t: nat)
    requires t > 0
    ensures x == (x / t) * t + x % t && 0 <= x % t < t
  {
  }

  function ValueOf(): Residual -> nat { (r: Residual) => r.value }

  /** Floors and remainders account for every second. */
  lemma {:induction false} FloorsAndResiduals(seconds: seq<nat>, total: nat)
    requires total > 0
    ensures Total(Floors(seconds, total)) * total + SumOver(Residuals(seconds, total), ValueOf()) ==
            100 * Total(seconds)
  {
    if seconds != [] {
      var init, last := seconds[..|seconds| - 1], seconds[|seconds| - 1];
      FloorsAndResiduals(init, total);
      assert Floors(seconds, total)[..|init|] == Floors(init, total);
      assert Residuals(seconds, total)[..|init|] == Residuals(init, total);
      DivMod(last * 100, total);
      var f := Total(Floors(init, total));
      assert (f + last * 100 / total) * total == f * total + (last * 100 / total) * total;
    }
  }

  lemma {:induction false} SumBelow(order: seq<Residual>, m: nat, total: nat)
    requires m <= |order| && total > 0
    requires forall j :: 0 <= j < |order| ==> order[j].value < total
    requires forall j :: m <= j < |order| ==> order[j].value == 0
    ensures SumOver(order, ValueOf()) <= m * (total - 1)
  {
    if order != [] {
      var init := order[..|order| - 1];
      if m == |order| {
        SumBelow(init, m - 1, total);
        assert m * (total - 1) == (m - 1) * (total - 1) + (total - 1);
      } else {
        SumBelow(init, m, total);
      }
    }
  }

  lemma ResidualsBelow(seconds: seq<nat>, total: nat, m: nat)
    requires total > 0 && m <= |seconds|
    requires forall j :: m <= j < |seconds| ==> Order(seconds, total)[j].value == 0
    ensures SumOver(Residuals(seconds, total), ValueOf()) <= m * (total - 1)
  {
    var order := Order(seconds, total);
    OrderIsPermutation(seconds, total);
    SortSums(Residuals(seconds, total), Precedes, ValueOf());
    forall j | 0 <= j < |order| ensures order[j].value < total {
      DivMod(seconds[order[j].index] * 100, total);
    }
    SumBelow(order, m, total);
  }

  // ----- Results ------------------------------------------------------------

  lemma MulKeepsOrder(a: nat, b: nat, t: nat)
    requires a <= b
    ensures a * t <= b * t
  {
  }

  /** `floors` whole points of `total` and a remainder make up at most the day. */
  lemma FloorsFit(floors: nat, remainder: nat, seconds: nat, total: nat)
    requires total > 0 && seconds <= total && floors * total + remainder == 100 * seconds
    ensures floors <= 100
  {
    if floors > 100 {
      MulKeepsOrder(101, floors, total);
      assert false;
    }
  }

  /** Remainders spread over `m` buckets leave at most `m` points to hand out. */
  lemma PointsFit(floors: nat, remainder: nat, total: nat, m: nat)
    requires total > 0 && floors * total + remainder == 100 * total && remainder <= m * (total - 1)
    ensures 100 - floors <= m
  {
    if 100 - floors > m {
      MulKeepsOrder(floors + m + 1, 100, total);
      assert false;
    }
  }

  /** Whatever the buckets hold, the result never passes 100, and reaches it exactly when there are
      buckets enough to take the missing points. */
  lemma PercentagesTotal(seconds: seq<nat>, total: nat)
    requires total > 0 && Total(seconds) <= total
    ensures Total(Floors(seconds, total)) <= 100
    ensures Total(Shares(seconds, total)) == Min(100, Total(Floors(seconds, total)) + |seconds|)
  {
    OrderIsPermutation(seconds, total);
    BumpedTotal(Floors(seconds, total), Order(seconds, total), Handed(seconds, total));
    FloorsAndResiduals(seconds, total);
    FloorsFit(Total(Floors(seconds, total)), SumOver(Residuals(seconds, total), ValueOf()), Total(seconds), total);
  }

  /** The points to hand out, when the buckets fill the day, fit on buckets with a remainder. */
  lemma HandedHaveRemainders(seconds: seq<nat>, total: nat)
    requires total > 0 && Total(seconds) == total
    ensures Handed(seconds, total) == 100 - Total(Floors(seconds, total))
    ensures forall j :: 0 <= j < Handed(seconds, total) ==> Order(seconds, total)[j].value > 0
  {
    var order, floors := Order(seconds, total), Total(Floors(seconds, total));
    var remainder := SumOver(Residuals(seconds, total), ValueOf());
    PercentagesTotal(seconds, total);
    FloorsAndResiduals(seconds, total);
    OrderIsPermutation(seconds, total);
    ResidualsBelow(seconds, total, |seconds|);
    PointsFit(floors, remainder, total, |seconds|);
    forall j | 0 <= j < Handed(seconds, total) ensures order[j].value > 0 {
      if order[j].value == 0 {
        ZeroesLast(order, j);
        ResidualsBelow(seconds, total, j);
        PointsFit(floors, remainder, total, j);
        assert false;
      }
    }
  }

  lemma ZeroesLast(order: seq<Residual>, j: nat)
    requires Sorted(order, Precedes) && j < |order| && order[j].value == 0
    ensures forall i :: j <= i < |order| ==> order[i].value == 0
  {
    forall i | j <= i < |order| ensures order[i].value == 0 {
      assert i == j || Precedes(order[j], order[i]);
    }
  }

  function Ceiling(seconds: nat, total: nat): nat
    requires total > 0
  {
    seconds * 100 / total + if seconds * 100 % total > 0 then 1 else 0
  }

  /** Main result: buckets that fill the day get percentages that sum to exactly 100, each the floor or
      the ceiling of its exact share. */
  lemma PercentagesAreFair(seconds: seq<nat>, total: nat)
    requires total > 0 && Total(seconds) == total
    ensures var r := Shares(seconds, total);
      && Total(r) == 100
      && (forall i :: 0 <= i < |seconds| ==> seconds[i] * 100 / total <= r[i] <= Ceiling(seconds[i], total))
  {
    var order := Order(seconds, total);
    OrderIsPermutation(seconds, total);
    HandedHaveRemainders(seconds, total);
    PercentagesTotal(seconds, total);
    BumpedTotal(Floors(seconds, total), order, Handed(seconds, total));
    forall i | 0 <= i < |seconds|
      ensures seconds[i] * 100 / total <= Shares(seconds, total)[i] <= Ceiling(seconds[i], total)
    {
      BumpedAt(Floors(seconds, total), order, Handed(seconds, total), i);
    }
  }

  lemma FloorMonotone(x: nat, y: nat, t: nat)
    requires t > 0 && x > y
    ensures x / t >= y / t
    ensures x / t == y / t ==> x % t > y % t
  {
    DivMod(x, t);
    DivMod(y, t);
    if x / t < y / t {
      MulKeepsOrder(x / t + 1, y / t, t);
      assert false;
    }
  }

  /** A strictly larger bucket never shows a smaller percentage, whether or not the buckets fill the day. */
  lemma PercentagesKeepOrder(seconds: seq<nat>, total: nat, i: nat, j: nat)
    requires i < |seconds| && j < |seconds| && seconds[i] > seconds[j]
    ensures Shares(seconds, total)[i] >= Shares(seconds, total)[j]
  {
    if total > 0 {
      OrderIsPermutation(seconds, total);
      FloorMonotone(seconds[i] * 100, seconds[j] * 100, total);
      BumpedKeepsOrder(Floors(seconds, total), Residuals(seconds, total), Order(seconds, total),
                       Handed(seconds, total), i, j);
    }
  }

  lemma {:induction false} BumpedKeepsOrder(
    floors: seq<nat>, residuals: seq<Residual>, order: seq<Residual>, k: nat, i: nat, j: nat)
    requires |floors| == |residuals| == |order| && k <= |order| && i < |floors| && j < |floors|
    requires forall a :: 0 <= a < |order| ==>
               order[a].index < |floors| && order[a] == residuals[order[a].index]
    requires forall a, b :: 0 <= a < b < |order| ==> order[a].index != order[b].index
    requires Placed(order, |order|, i) && Sorted(order, Precedes)
    requires floors[i] > floors[j] || (floors[i] == floors[j] && residuals[i].value > residuals[j].value)
    ensures Bumped(floors, order, k)[i] >= Bumped(floors, order, k)[j]
  {
    BumpedAt(floors, order, k, i);
    BumpedAt(floors, order, k, j);
    if floors[i] == floors[j] && Placed(order, k, j) {
      var b :| 0 <= b < k && order[b].index == j;
      var a :| 0 <= a < |order| && order[a].index == i;
      assert a > b ==> Precedes(order[b], order[a]);
      assert Placed(order, k, i);
    }
  }

  // ----- When the buckets do not fill the day -------------------------------

  function HasRemainder(): Residual -> nat { (r: Residual) => if r.value > 0 then 1 else 0 }

  /** The number of buckets whose exact share is not a whole percentage. */
  function Uneven(seconds: seq<nat>, total: nat): nat
    requires total > 0
  {
    SumOver(Residuals(seconds, total), HasRemainder())
  }

  lemma {:induction false} RemaindersFirst(order: seq<Residual>)
    requires Sorted(order, Precedes)
    ensures SumOver(order, HasRemainder()) <= |order|
    ensures forall j :: 0 <= j < |order| ==> (order[j].value > 0 <==> j < SumOver(order, HasRemainder()))
  {
    if order != [] {
      var init, last := order[..|order| - 1], order[|order| - 1];
      RemaindersFirst(init);
      if last.value > 0 {
        forall j | 0 <= j < |init| ensures order[j].value > 0 {
          assert Precedes(order[j], last);
        }
        assert init != [] ==> init[|init| - 1].value > 0;
      }
    }
  }

  predicate CeilingHolds(seconds: seq<nat>, total: nat, i: nat)
    requires total > 0 && i < |seconds|
  {
    Shares(seconds, total)[i] <= Ceiling(seconds[i], total)
  }

  /** A percentage passes its ceiling exactly when a bucket without a remainder is handed a point. */
  lemma PassesCeiling(seconds: seq<nat>, total: nat, i: nat)
    requires total > 0 && i < |seconds|
    ensures CeilingHolds(seconds, total, i) <==>
            !(Placed(Order(seconds, total), Handed(seconds, total), i) && seconds[i] * 100 % total == 0)
  {
    OrderIsPermutation(seconds, total);
    BumpedAt(Floors(seconds, total), Order(seconds, total), Handed(seconds, total), i);
  }

  /** The buckets with a remainder stand first. */
  lemma UnevenFirst(seconds: seq<nat>, total: nat, j: nat)
    requires total > 0 && j < |seconds|
    ensures var r := Order(seconds, total)[j];
      r.index < |seconds| && (seconds[r.index] * 100 % total > 0 <==> j < Uneven(seconds, total))
  {
    OrderIsPermutation(seconds, total);
    SortSums(Residuals(seconds, total), Precedes, HasRemainder());
    RemaindersFirst(Order(seconds, total));
  }

  lemma FewPointsKeepCeilings(seconds: seq<nat>, total: nat, i: nat)
    requires total > 0 && Handed(seconds, total) <= Uneven(seconds, total) && i < |seconds|
    ensures CeilingHolds(seconds, total, i)
  {
    var order, k := Order(seconds, total), Handed(seconds, total);
    PassesCeiling(seconds, total, i);
    if Placed(order, k, i) {
      var j :| 0 <= j < k && order[j].index == i;
      UnevenFirst(seconds, total, j);
    }
  }

  lemma ManyPointsPassACeiling(seconds: seq<nat>, total: nat) returns (i: nat)
    requires total > 0 && Uneven(seconds, total) < Handed(seconds, total)
    ensures i < |seconds| && !CeilingHolds(seconds, total, i)
  {
    var order, k := Order(seconds, total), Handed(seconds, total);
    UnevenFirst(seconds, total, k - 1);
    i := order[k - 1].index;
    assert Placed(order, k, i);
    PassesCeiling(seconds, total, i);
  }

  /** Exactly when every percentage is a floor or a ceiling: when the points handed out do not outnumber
      the buckets with a remainder. */
  lemma WithinCeilingIff(seconds: seq<nat>, total: nat)
    requires total > 0
    ensures (forall i :: 0 <= i < |seconds| ==> CeilingHolds(seconds, total, i)) <==>
            Handed(seconds, total) <= Uneven(seconds, total)
  {
    if Handed(seconds, total) <= Uneven(seconds, total) {
      forall i | 0 <= i < |seconds| ensures CeilingHolds(seconds, total, i) {
        FewPointsKeepCeilings(seconds, total, i);
      }
    } else {
      var i := ManyPointsPassACeiling(seconds, total);
    }
  }

  /** One bucket holding half of the active time is shown at 51 percent. */
  lemma HalfTheDayReads51()
    ensures Shares([50], 100) == [51]
  {
    var seconds: seq<nat> := [50];
    assert Floors(seconds, 100) == [50];
    assert Total([]) == 0 && Total(Floors(seconds, 100)) == 50;
    assert Handed(seconds, 100) == 1;
    OrderIsPermutation(seconds, 100);
    assert Order(seconds, 100)[0].index == 0;
    BumpedAt(Floors(seconds, 100), Order(seconds, 100), 1, 0);
    assert Shares(seconds, 100)[0] == 51;
  }

  // ----- Who gets the points ------------------------------------------------

  /** Points go by remainder, and between equal remainders to the earlier bucket: one that is not handed a
      point is ahead of none that is. */
  lemma PointsByRemainder(seconds: seq<nat>, total: nat, i: nat, j: nat)
    requires total > 0 && i < |seconds| && j < |seconds|
    ensures var x, y := seconds[i] * 100 % total, seconds[j] * 100 % total;
      (x > y || (x == y && i < j)) && Shares(seconds, total)[j] > seconds[j] * 100 / total ==>
        Shares(seconds, total)[i] > seconds[i] * 100 / total
  {
    var order, k, floors := Order(seconds, total), Handed(seconds, total), Floors(seconds, total);
    OrderIsPermutation(seconds, total);
    BumpedAt(floors, order, k, i);
    BumpedAt(floors, order, k, j);
    assert Placed(order, |order|, i);
    var a :| 0 <= a < |order| && order[a].index == i;
    var x, y := seconds[i] * 100 % total, seconds[j] * 100 % total;
    if (x > y || (x == y && i < j)) && Placed(order, k, j) {
      var b :| 0 <= b < k && order[b].index == j;
      assert a < b;
      assert Placed(order, k, i);
    }
  }
}
