/**
 Reducing float histograms (`src/protobuf.rs:664-669`, `src/protobuf.rs:702-706`): which counts
 are added up, in which order, and what is left of the distribution when the additions are exact.
 */
module FloatHistograms {
  import opened Basics
  import opened Model
  import opened BucketLayout
  import opened Rebucketing
  import opened SideReduction
  import opened NativeHistograms
  import opened HistogramConversion
  import opened ResolutionTheorems

  // ----- any addition

  /** Bucket `coarse` covers bucket `fine`, `shift` schemas finer. */
  predicate Covers(coarse: int, fine: int, shift: nat) {
    (coarse - 1) * Pow2(shift) < fine <= coarse * Pow2(shift)
  }

  /** The counts of the buckets that `coarse` covers, added up from left to right. */
  function AddedUp<T>(indices: seq<int>, counts: seq<T>, shift: nat, coarse: int, add: (T, T) -> T): Option<T>
    requires |indices| == |counts|
  {
    if indices == [] then None
    else
      var last := |indices| - 1;
      var before := AddedUp(indices[..last], counts[..last], shift, coarse, add);
      if !Covers(coarse, indices[last], shift) then before
      else if before.None? then Some(counts[last])
      else Some(add(before.value, counts[last]))
  }

  lemma TargetCovers(coarse: int, fine: int, shift: nat)
    ensures Covers(coarse, fine, shift) <==> Target(fine, shift) == coarse
  {
    hide Target;
    TargetBound(fine, shift, coarse);
    TargetBound(fine, shift, coarse - 1);
  }

  lemma AddedUpSnoc<T>(
    indices: seq<int>, counts: seq<T>, next: int, count: T, shift: nat, coarse: int, add: (T, T) -> T)
    requires |indices| == |counts|
    ensures AddedUp(indices + [next], counts + [count], shift, coarse, add) ==
      var before := AddedUp(indices, counts, shift, coarse, add);
      if Target(next, shift) != coarse then before
      else if before.None? then Some(count)
      else Some(add(before.value, count))
  {
    hide Covers, Target;
    TargetCovers(coarse, next, shift);
    assert (indices + [next])[..|indices|] == indices && (counts + [count])[..|indices|] == counts;
  }

  /** `out`, the counts of the buckets `merged`, has `sum` for bucket `coarse`, and there is one
      exactly when there is that bucket. */
  ghost predicate IsSum<T>(merged: seq<int>, out: seq<T>, coarse: int, sum: Option<T>) {
    && |out| == |merged|
    && (sum.Some? <==> coarse in merged)
    && forall j | 0 <= j < |merged| && merged[j] == coarse :: sum == Some(out[j])
  }

  /** Every merged count is the sum of the counts its bucket covers, and no bucket is lost. */
  lemma {:induction false} MergedCountsAddUp<T>(
    indices: seq<int>, counts: seq<T>, shift: nat, coarse: int, add: (T, T) -> T)
    requires StrictlyIncreasing(indices) && |indices| == |counts|
    ensures IsSum(
      MergedIndices(indices, shift), MergedCounts(indices, counts, shift, add), coarse,
      AddedUp(indices, counts, shift, coarse, add))
  {
    if indices != [] {
      hide Target, AddedUp, MergedIndices, MergedCounts, IsSum, Collapses, AddedToLast, StrictlyIncreasing;
      var last := |indices| - 1;
      var init, initCounts, next, count := indices[..last], counts[..last], indices[last], counts[last];
      assert indices == init + [next] && counts == initCounts + [count];
      InitIncreases(indices);
      MergedCountsAddUp(init, initCounts, shift, coarse, add);
      AddedUpSnoc(init, initCounts, next, count, shift, coarse, add);
      MergeSnoc(init, initCounts, next, count, shift, add);
      MergedStrictlyIncreasing(indices, shift);
      var merged, out := MergedIndices(init, shift), MergedCounts(init, initCounts, shift, add);
      var sum := AddedUp(init, initCounts, shift, coarse, add);
      if Collapses(init, next, shift) {
        CollapsedSum(init, next, out, count, shift, coarse, sum, add);
      } else {
        NewSum(merged, Target(next, shift), out, count, coarse, sum);
      }
    }
  }

  lemma InitIncreases(indices: seq<int>)
    requires StrictlyIncreasing(indices) && indices != []
    ensures StrictlyIncreasing(indices[..|indices| - 1])
  {
  }

  lemma CollapsedSum<T>(
    indices: seq<int>, next: int, out: seq<T>, count: T, shift: nat, coarse: int, sum: Option<T>, add: (T, T) -> T)
    requires Collapses(indices, next, shift) && StrictlyIncreasing(MergedIndices(indices, shift))
    requires IsSum(MergedIndices(indices, shift), out, coarse, sum)
    ensures IsSum(
      MergedIndices(indices, shift), AddedToLast(out, count, add), coarse,
      if Target(next, shift) != coarse then sum
      else if sum.None? then Some(count)
      else Some(add(sum.value, count)))
  {
    hide Target, MergedIndices;
    var merged := MergedIndices(indices, shift);
    var last := |merged| - 1;
    assert merged[last] == Target(next, shift);
    assert forall j | 0 <= j < last :: merged[j] < merged[last];
    assert forall j | 0 <= j < last :: AddedToLast(out, count, add)[j] == out[j];
  }

  lemma NewSum<T>(merged: seq<int>, target: int, out: seq<T>, count: T, coarse: int, sum: Option<T>)
    requires StrictlyIncreasing(merged + [target]) && IsSum(merged, out, coarse, sum)
    ensures IsSum(
      merged + [target], out + [count], coarse, if target != coarse then sum else Some(count))
    ensures target == coarse ==> sum.None?
  {
    var all := merged + [target];
    assert all[|merged|] == target;
    assert forall j | 0 <= j < |merged| :: all[j] == merged[j] && all[j] < all[|merged|];
  }

  /** A reduced float side holds, bucket by bucket, the sums of the counts it covers, each added up
      from left to right, in every bucket that covers any. */
  lemma FloatCountsAddUp(side: Side, shift: nat, addFloat: (F64, F64) -> F64, coarse: int)
    requires ValidLayout(side) && side.counts != []
    ensures
      var reduced := ReducedSide(side, shift, addFloat);
      var sum := AddedUp(Indices(side.spans), side.counts, shift, coarse, addFloat);
      && reduced.deltas == []
      && IsSum(Indices(reduced.spans), reduced.counts, coarse, sum)
  {
    hide MergedIndices, MergedCounts, Indices, Encode, AddedUp;
    ValidSpansLayout(side.spans);
    MergedCountsAddUp(Indices(side.spans), side.counts, shift, coarse, addFloat);
  }

  // ----- exact additions

  /** `lift` gives doubles that `addFloat` adds exactly as long as sums do not pass `bound`; for
      IEEE 754 addition the integers up to 2^53 are such. */
  ghost predicate AddsExactly(lift: int -> F64, bound: nat, addFloat: (F64, F64) -> F64) {
    forall x: int, y: int | x >= 0 && y >= 0 && x + y <= bound :: addFloat(lift(x), lift(y)) == lift(x + y)
  }

  function Lifted(counts: seq<int>, lift: int -> F64): (lifted: seq<F64>)
    ensures |lifted| == |counts|
    ensures forall i | 0 <= i < |counts| :: lifted[i] == lift(counts[i])
  {
    seq(|counts|, i requires 0 <= i < |counts| => lift(counts[i]))
  }

  /** Non-negative integers whose total the additions can reach. */
  ghost predicate Addable(counts: seq<int>, bound: nat) {
    AllAtLeastZero(counts) && Sum(counts) <= bound
  }

  /** A float side whose counts are the integers `counts`. */
  ghost predicate Holds(side: Side, counts: seq<int>, lift: int -> F64) {
    side.deltas == [] && side.counts == Lifted(counts, lift)
  }

  lemma {:induction false} MergedLifts(
    indices: seq<int>, counts: seq<int>, shift: nat, lift: int -> F64, bound: nat, addFloat: (F64, F64) -> F64)
    requires |indices| == |counts| && Addable(counts, bound) && AddsExactly(lift, bound, addFloat)
    ensures MergedCounts<F64>(indices, Lifted(counts, lift), shift, addFloat)
      == Lifted(MergedCounts<int>(indices, counts, shift, Plus), lift)
  {
    hide AddsExactly, MergedIndices, MergedCounts, Target, AddedToLast, Lifted, Collapses, Sum;
    if indices == [] {
      NothingLifts(shift, lift, addFloat);
    } else {
      var last := |indices| - 1;
      var init, initCounts, next, count := indices[..last], counts[..last], indices[last], counts[last];
      assert indices == init + [next] && counts == initCounts + [count];
      AtLeastZeroInit(counts);
      SumSnoc(initCounts, count);
      MergedBetweenZeroAndSum(init, initCounts, shift);
      MergedLifts(init, initCounts, shift, lift, bound, addFloat);
      LiftedSnoc(initCounts, count, lift);
      MergeSnoc<F64>(init, Lifted(initCounts, lift), next, lift(count), shift, addFloat);
      MergeSnoc<int>(init, initCounts, next, count, shift, Plus);
      var out := MergedCounts<int>(init, initCounts, shift, Plus);
      LiftedSnoc(out, count, lift);
      if Collapses(init, next, shift) {
        SomeBucket(init, next, shift);
        LiftedAddedToLast(out, count, lift, bound, addFloat);
      }
    }
  }

  lemma SomeBucket(indices: seq<int>, next: int, shift: nat)
    requires Collapses(indices, next, shift)
    ensures MergedIndices(indices, shift) != []
  {
  }

  lemma NothingLifts(shift: nat, lift: int -> F64, addFloat: (F64, F64) -> F64)
    ensures MergedCounts<F64>([], Lifted([], lift), shift, addFloat)
      == Lifted(MergedCounts<int>([], [], shift, Plus), lift)
  {
  }

  lemma LiftedSnoc(counts: seq<int>, count: int, lift: int -> F64)
    ensures Lifted(counts + [count], lift) == Lifted(counts, lift) + [lift(count)]
  {
  }

  lemma LiftedAddedToLast(counts: seq<int>, count: int, lift: int -> F64, bound: nat, addFloat: (F64, F64) -> F64)
    requires counts != [] && counts[|counts| - 1] >= 0 && count >= 0 && counts[|counts| - 1] + count <= bound
    requires AddsExactly(lift, bound, addFloat)
    ensures Lifted(AddedToLast(counts, count, Plus), lift) == AddedToLast(Lifted(counts, lift), lift(count), addFloat)
  {
    hide AddsExactly;
    AddedExactly(lift, bound, addFloat, counts[|counts| - 1], count);
  }

  lemma AddedExactly(lift: int -> F64, bound: nat, addFloat: (F64, F64) -> F64, x: int, y: int)
    requires AddsExactly(lift, bound, addFloat) && x >= 0 && y >= 0 && x + y <= bound
    ensures addFloat(lift(x), lift(y)) == lift(x + y)
  {
  }

  /** The integer counts behind a side, `shift` schemas coarser. */
  function Merged(side: Side, counts: seq<int>, shift: nat): seq<int>
    requires |counts| == |Indices(side.spans)|
  {
    MergedCounts<int>(Indices(side.spans), counts, shift, Plus)
  }

  lemma MergedStaysAddable(side: Side, counts: seq<int>, shift: nat, bound: nat)
    requires |counts| == |Indices(side.spans)| && Addable(counts, bound)
    ensures Addable(Merged(side, counts, shift), bound)
  {
    MergedBetweenZeroAndSum(Indices(side.spans), counts, shift);
    MergePreservesTotal(Indices(side.spans), counts, shift);
  }

  lemma HeldCounts(side: Side, counts: seq<int>, lift: int -> F64)
    requires ValidLayout(side) && Holds(side, counts, lift)
    ensures |counts| == |Indices(side.spans)|
  {
  }

  lemma ReducedHolds(
    side: Side, counts: seq<int>, shift: nat, lift: int -> F64, bound: nat, addFloat: (F64, F64) -> F64)
    requires ValidLayout(side) && Holds(side, counts, lift)
    requires Addable(counts, bound) && AddsExactly(lift, bound, addFloat)
    ensures |counts| == |Indices(side.spans)|
    ensures Holds(ReducedSide(side, shift, addFloat), Merged(side, counts, shift), lift)
  {
    hide AddsExactly, Encode;
    MergedLifts(Indices(side.spans), counts, shift, lift, bound, addFloat);
  }

  lemma NotMergedAtZero(side: Side, counts: seq<int>)
    requires ValidLayout(side) && |counts| == |Indices(side.spans)|
    ensures Merged(side, counts, 0) == counts
  {
    ValidIncreases(side);
    UnmergedCounts(Indices(side.spans), counts);
  }

  lemma MergedTwice(side: Side, counts: seq<int>, a: nat, b: nat, coarser: Side)
    requires |counts| == |Indices(side.spans)|
    requires Indices(coarser.spans) == MergedIndices(Indices(side.spans), a)
    ensures |Merged(side, counts, a)| == |Indices(coarser.spans)|
    ensures Merged(coarser, Merged(side, counts, a), b) == Merged(side, counts, a + b)
  {
    MergedCountsCompose<int>(Indices(side.spans), counts, a, b, Plus);
  }

  /** `side` of a histogram, one more step coarser. */
  lemma StepHolds(
    side: Side, counts: seq<int>, k: nat, coarser: Side, lift: int -> F64, bound: nat, addFloat: (F64, F64) -> F64)
    requires |counts| == |Indices(side.spans)| && ValidLayout(coarser)
    requires Indices(coarser.spans) == MergedIndices(Indices(side.spans), k)
    requires Addable(counts, bound) && AddsExactly(lift, bound, addFloat)
    requires Holds(coarser, Merged(side, counts, k), lift)
    ensures Holds(ReducedSide(coarser, 1, addFloat), Merged(side, counts, k + 1), lift)
  {
    hide AddsExactly, Holds, Merged, Addable, ValidLayout, Indices, MergedIndices;
    MergedStaysAddable(side, counts, k, bound);
    MergedTwice(side, counts, k, 1, coarser);
    ReducedHolds(coarser, Merged(side, counts, k), 1, lift, bound, addFloat);
  }

  /** The counts on both sides of a float histogram. */
  datatype Counts = Counts(negative: seq<int>, positive: seq<int>)

  ghost predicate HoldsBoth(h: Histogram, counts: Counts, lift: int -> F64) {
    Holds(h.negative, counts.negative, lift) && Holds(h.positive, counts.positive, lift)
  }

  ghost predicate AddableBoth(counts: Counts, bound: nat) {
    Addable(counts.negative, bound) && Addable(counts.positive, bound)
  }

  function MergedBoth(h: Histogram, counts: Counts, shift: nat): Counts
    requires |counts.negative| == |Indices(h.negative.spans)| && |counts.positive| == |Indices(h.positive.spans)|
  {
    Counts(Merged(h.negative, counts.negative, shift), Merged(h.positive, counts.positive, shift))
  }

  lemma HeldBoth(h: Histogram, counts: Counts, lift: int -> F64)
    requires Layouts(h) && HoldsBoth(h, counts, lift)
    ensures |counts.negative| == |Indices(h.negative.spans)| && |counts.positive| == |Indices(h.positive.spans)|
  {
    HeldCounts(h.negative, counts.negative, lift);
    HeldCounts(h.positive, counts.positive, lift);
  }

  /** The bucket-limit loop. */
  lemma {:induction false} StepsHold(
    h: Histogram, counts: Counts, k: nat, lift: int -> F64, bound: nat, addFloat: (F64, F64) -> F64)
    requires Layouts(h) && InI32(h.schema - k) && HoldsBoth(h, counts, lift)
    requires AddableBoth(counts, bound) && AddsExactly(lift, bound, addFloat)
    ensures |counts.negative| == |Indices(h.negative.spans)| && |counts.positive| == |Indices(h.positive.spans)|
    ensures HoldsBoth(Steps(h, k, addFloat), MergedBoth(h, counts, k), lift)
  {
    hide AddsExactly, Holds, Addable, Merged, ValidLayout, Indices, MergedIndices, Reduced, ReducedSide, BucketsAt;
    HeldBoth(h, counts, lift);
    if k == 0 {
      NotMergedAtZero(h.negative, counts.negative);
      NotMergedAtZero(h.positive, counts.positive);
    } else {
      var before := Steps(h, k - 1, addFloat);
      StepsHold(h, counts, k - 1, lift, bound, addFloat);
      StepsLayout(h, k - 1, addFloat);
      ReducedByOne(before, addFloat);
      StepHolds(h.negative, counts.negative, k - 1, before.negative, lift, bound, addFloat);
      StepHolds(h.positive, counts.positive, k - 1, before.positive, lift, bound, addFloat);
    }
  }

  /** The cap at schema 8. */
  lemma CapHolds(h: Histogram, counts: Counts, lift: int -> F64, bound: nat, addFloat: (F64, F64) -> F64)
    requires Layouts(h) && CapIsFaithful(h) && HoldsBoth(h, counts, lift)
    requires AddableBoth(counts, bound) && AddsExactly(lift, bound, addFloat)
    ensures |counts.negative| == |Indices(h.negative.spans)| && |counts.positive| == |Indices(h.positive.spans)|
    ensures
      var capped := Capped(h, addFloat);
      && capped.schema <= h.schema
      && HoldsBoth(capped, MergedBoth(h, counts, h.schema - capped.schema), lift)
      && LayoutAt(h, h.schema - capped.schema, capped)
  {
    hide AddsExactly, Holds, Addable, Merged, ValidLayout, ReducedSide, FaithfulShift, Indices, MergedIndices;
    HeldBoth(h, counts, lift);
    CappedIsOneShot(h, addFloat);
    LayoutLengths(h);
    LayoutLengths(Capped(h, addFloat));
    if h.schema > SCHEMA_MAX {
      ReducedHolds(h.negative, counts.negative, h.schema - SCHEMA_MAX, lift, bound, addFloat);
      ReducedHolds(h.positive, counts.positive, h.schema - SCHEMA_MAX, lift, bound, addFloat);
    } else {
      NotMergedAtZero(h.negative, counts.negative);
      NotMergedAtZero(h.positive, counts.positive);
      SideUnmerged(h.negative);
      SideUnmerged(h.positive);
    }
  }

  /** The same observations below every coarse bound, and in all. */
  ghost predicate SameCounts(fine: Side, fineCounts: seq<int>, coarse: Side, coarseCounts: seq<int>, shift: nat) {
    && |fineCounts| == |Indices(fine.spans)| && |coarseCounts| == |Indices(coarse.spans)|
    && Sum(coarseCounts) == Sum(fineCounts)
    && forall k ::
      CumulativeCount(Indices(coarse.spans), coarseCounts, k)
        == CumulativeCount(Indices(fine.spans), fineCounts, k * Pow2(shift))
  }

  lemma MergedSameCounts(fine: Side, counts: seq<int>, coarse: Side, shift: nat)
    requires |counts| == |Indices(fine.spans)| && Indices(coarse.spans) == MergedIndices(Indices(fine.spans), shift)
    ensures SameCounts(fine, counts, coarse, Merged(fine, counts, shift), shift)
  {
    hide Indices, MergedIndices, MergedCounts, CumulativeCount, Sum, Pow2;
    MergePreservesTotal(Indices(fine.spans), counts, shift);
    forall k: int
      ensures CumulativeCount(Indices(coarse.spans), Merged(fine, counts, shift), k)
        == CumulativeCount(Indices(fine.spans), counts, k * Pow2(shift))
    {
      MergePreservesMeaning(Indices(fine.spans), counts, shift, k);
    }
  }

  lemma ConvertedHolds(
    h: Histogram, counts: Counts, lift: int -> F64, bound: nat, bucketLimit: nat, addFloat: (F64, F64) -> F64,
    result: Histogram)
    requires Layouts(h) && CapIsFaithful(h) && HoldsBoth(h, counts, lift)
    requires AddableBoth(counts, bound) && AddsExactly(lift, bound, addFloat)
    requires Converted(h, bucketLimit, addFloat, Ok(result))
    ensures |counts.negative| == |Indices(h.negative.spans)| && |counts.positive| == |Indices(h.positive.spans)|
    ensures result.schema <= h.schema
    ensures HoldsBoth(result, MergedBoth(h, counts, h.schema - result.schema), lift)
    ensures Indices(result.negative.spans) == MergedIndices(Indices(h.negative.spans), h.schema - result.schema)
    ensures Indices(result.positive.spans) == MergedIndices(Indices(h.positive.spans), h.schema - result.schema)
  {
    hide AddsExactly, Holds, Addable, Merged, ValidLayout, CapIsFaithful, Indices, MergedIndices, Fits, Capped, Steps,
      BucketsAt;
    var capped := Capped(h, addFloat);
    var a, b := h.schema - capped.schema, capped.schema - result.schema;
    CapHolds(h, counts, lift, bound, addFloat);
    if b == 0 {
      NoStep(capped, addFloat);
    } else {
      var mid := MergedBoth(h, counts, a);
      MergedStaysAddable(h.negative, counts.negative, a, bound);
      MergedStaysAddable(h.positive, counts.positive, a, bound);
      StepsHold(capped, mid, b, lift, bound, addFloat);
      StepsLayout(capped, b, addFloat);
      MergedTwice(h.negative, counts.negative, a, b, capped.negative);
      MergedTwice(h.positive, counts.positive, a, b, capped.positive);
      MergedIndicesCompose(Indices(h.negative.spans), a, b);
      MergedIndicesCompose(Indices(h.positive.spans), a, b);
    }
  }

  /** The main result for float histograms: cap and bucket-limit loop, with their additions in
      whatever order, keep each side's cumulative counts at every coarse bound, and its total, as
      long as additions of such counts are exact. */
  lemma FloatConversionPreservesMeaning(
    h: Histogram, counts: Counts, lift: int -> F64, bound: nat, bucketLimit: nat, addFloat: (F64, F64) -> F64,
    result: Histogram)
    returns (coarse: Counts)
    requires Layouts(h) && CapIsFaithful(h) && HoldsBoth(h, counts, lift)
    requires AddableBoth(counts, bound) && AddsExactly(lift, bound, addFloat)
    requires Converted(h, bucketLimit, addFloat, Ok(result))
    ensures result.schema <= h.schema
    ensures HoldsBoth(result, coarse, lift)
    ensures SameCounts(h.negative, counts.negative, result.negative, coarse.negative, h.schema - result.schema)
    ensures SameCounts(h.positive, counts.positive, result.positive, coarse.positive, h.schema - result.schema)
  {
    hide AddsExactly, Holds, Addable, Merged, ValidLayout, CapIsFaithful, Indices, MergedIndices, SameCounts, Converted;
    ConvertedHolds(h, counts, lift, bound, bucketLimit, addFloat, result);
    var shift := h.schema - result.schema;
    coarse := MergedBoth(h, counts, shift);
    MergedSameCounts(h.negative, counts.negative, result.negative, shift);
    MergedSameCounts(h.positive, counts.positive, result.positive, shift);
  }
}
