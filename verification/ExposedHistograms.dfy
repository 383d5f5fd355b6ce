/**
 Exposed histograms, from acceptance to result (`src/protobuf.rs:482-571`): what validation asks,
 which schema the result has, and what it carries over unchanged.
 */
module ExposedHistograms {
  import opened Basics
  import opened Model
  import opened BucketLayout
  import opened Rebucketing
  import opened SideReduction
  import opened NativeHistograms
  import opened HistogramConversion
  import opened ResolutionTheorems

  // ----- what is accepted

  /** Spans that go forward after the first, all of whose indices fit `i32`; an empty span counts
      for the index it stands at. */
  ghost predicate ForwardSpans(spans: seq<BucketSpan>) {
    forall k | 0 <= k < |spans| ::
      && (k > 0 ==> spans[k].offset >= 0)
      && var first := End(spans[..k]) + spans[k].offset;
      && -0x8000_0000 <= first < 0x8000_0000
      && (spans[k].length > 0 ==> first + spans[k].length <= 0x8000_0000)
  }

  lemma {:induction false} SpansAcceptedExactly(spans: seq<BucketSpan>)
    ensures SpanFault(spans).None? <==> ForwardSpans(spans)
  {
    hide End;
    if spans != [] {
      var k := |spans| - 1;
      var init := spans[..k];
      SpansAcceptedExactly(init);
      assert forall j | 0 <= j < k :: init[j] == spans[j] && init[..j] == spans[..j];
    }
  }

  function TotalLength(spans: seq<BucketSpan>): nat {
    if spans == [] then 0 else TotalLength(spans[..|spans| - 1]) + spans[|spans| - 1].length
  }

  lemma {:induction false} LaidOut(spans: seq<BucketSpan>)
    ensures |Indices(spans)| == TotalLength(spans)
  {
    if spans != [] {
      LaidOut(spans[..|spans| - 1]);
    }
  }

  /** As many buckets as the spans cover, and every partial sum of the deltas a count that a
      non-negative `i64` holds. */
  ghost predicate GoodSide(side: Side) {
    && ForwardSpans(side.spans)
    && TotalLength(side.spans) == |side.deltas| + |side.counts|
    && forall n | 0 <= n <= |side.deltas| :: 0 <= Sum(side.deltas[..n]) < 0x8000_0000_0000_0000
  }

  lemma SideAcceptedExactly(side: Side)
    ensures FaultOf(side).None? <==> GoodSide(side)
  {
    hide ForwardSpans, CountFault, SpanFault, Indices, TotalLength, Sum;
    SpansAcceptedExactly(side.spans);
    LaidOut(side.spans);
    ValidCounts(side.deltas);
  }

  /** A histogram is accepted exactly when its schema is at least -4 and both sides are good. */
  lemma AcceptedExactly(h: Histogram)
    ensures Rejection(h).None? <==> h.schema >= -4 && GoodSide(h.negative) && GoodSide(h.positive)
  {
    hide FaultOf, GoodSide;
    SideAcceptedExactly(h.negative);
    SideAcceptedExactly(h.positive);
  }

  // ----- what the result carries

  /** `x > 0.0` on bit patterns. */
  predicate AboveZero(x: Option<F64>) {
    x.Some? && 1 <= x.value <= 0x7ff0_0000_0000_0000
  }

  predicate ExposedAsFloat(exposed: Exposed) {
    AboveZero(exposed.sampleCountFloat) || AboveZero(exposed.zeroCountFloat)
  }

  ghost predicate ExposedSpans(exposed: seq<ExposedSpan>, spans: seq<BucketSpan>) {
    && |spans| == |exposed|
    && forall i | 0 <= i < |spans| ::
      spans[i] == BucketSpan(exposed[i].offset.GetOr(0), exposed[i].length.GetOr(0))
  }

  /** Count, sum, threshold and zero count are the exposed ones, a missing one counting as zero; the
      kind is float as soon as a float count is positive; only gauges have a reset hint. */
  ghost predicate Carries(exposed: Exposed, gauge: bool, h: Histogram) {
    && h.count == (if ExposedAsFloat(exposed) then CountFloat(exposed.sampleCountFloat.GetOr(0))
                   else CountInt(exposed.sampleCount.GetOr(0)))
    && h.zeroCount == (if ExposedAsFloat(exposed) then CountFloat(exposed.zeroCountFloat.GetOr(0))
                       else CountInt(exposed.zeroCount.GetOr(0)))
    && h.sum == exposed.sampleSum.GetOr(0)
    && h.zeroThreshold == exposed.zeroThreshold.GetOr(0)
    && h.resetHint == if gauge then Gauge else Unknown
  }

  /** Both sides as exposed: absolute counts for float histograms, deltas for integer ones. */
  ghost predicate CarriesSides(exposed: Exposed, h: Histogram) {
    && ExposedSpans(exposed.negativeSpans, h.negative.spans)
    && ExposedSpans(exposed.positiveSpans, h.positive.spans)
    && (if ExposedAsFloat(exposed) then
          && h.negative.deltas == h.positive.deltas == []
          && h.negative.counts == exposed.negativeCounts && h.positive.counts == exposed.positiveCounts
        else
          && h.negative.counts == h.positive.counts == []
          && h.negative.deltas == exposed.negativeDeltas && h.positive.deltas == exposed.positiveDeltas)
  }

  lemma BaseCarries(exposed: Exposed, gauge: bool)
    ensures Carries(exposed, gauge, Base(exposed, gauge)) && CarriesSides(exposed, Base(exposed, gauge))
    ensures Base(exposed, gauge).schema == exposed.schema.GetOr(0)
  {
  }

  lemma {:induction false} StepsCarry(h: Histogram, k: nat, addFloat: (F64, F64) -> F64)
    requires Layouts(h) && InI32(h.schema - k)
    ensures
      var r := Steps(h, k, addFloat);
      r == h.(schema := h.schema - k, negative := r.negative, positive := r.positive)
  {
    hide ReducedSide, ValidLayout;
    if k > 0 {
      StepsCarry(h, k - 1, addFloat);
    }
  }

  /** Whatever the reductions, the scalars are the exposed ones; and without a reduction, the sides. */
  lemma ConvertedCarries(
    exposed: Exposed, gauge: bool, bucketLimit: nat, addFloat: (F64, F64) -> F64, result: Histogram)
    requires Converted(Base(exposed, gauge), bucketLimit, addFloat, Ok(result))
    ensures Carries(exposed, gauge, result)
    ensures result.schema == exposed.schema.GetOr(0) ==> CarriesSides(exposed, result)
  {
    hide Base, ReducedSide, ValidLayout, BucketsAt, Steps, Fits;
    var h := Base(exposed, gauge);
    BaseCarries(exposed, gauge);
    var capped := Capped(h, addFloat);
    StepsCarry(capped, capped.schema - result.schema, addFloat);
    if capped.schema == result.schema {
      NoStep(capped, addFloat);
    }
  }

  // ----- which schema it has

  /** Buckets of the exposed layout at a coarser schema. */
  function BucketsWhen(h: Histogram, schema: int): nat
    requires schema <= h.schema
  {
    var shift := h.schema - schema;
    |MergedIndices(Indices(h.negative.spans), shift)| + |MergedIndices(Indices(h.positive.spans), shift)|
  }

  lemma CappedBuckets(h: Histogram, addFloat: (F64, F64) -> F64, schema: int)
    requires Layouts(h) && CapIsFaithful(h) && schema <= Capped(h, addFloat).schema
    ensures Capped(h, addFloat).schema <= h.schema
    ensures BucketsAtSchema(Capped(h, addFloat), schema) == BucketsWhen(h, schema)
  {
    hide ValidLayout, ReducedSide, FaithfulShift, MergedIndices, Indices;
    var capped := Capped(h, addFloat);
    CappedIsOneShot(h, addFloat);
    if capped.schema < h.schema {
      MergedIndicesCompose(Indices(h.negative.spans), h.schema - capped.schema, capped.schema - schema);
      MergedIndicesCompose(Indices(h.positive.spans), h.schema - capped.schema, capped.schema - schema);
    }
  }

  /** The result is at the finest schema from 8 down to -4, and no finer than exposed, at which the
      bucket limit holds; 0 is no limit. */
  lemma ResultSchema(
    exposed: Exposed, gauge: bool, bucketLimit: nat, addFloat: (F64, F64) -> F64, result: Histogram)
    requires Converted(Base(exposed, gauge), bucketLimit, addFloat, Ok(result))
    requires CapIsFaithful(Base(exposed, gauge))
    ensures
      var h := Base(exposed, gauge);
      var finest := if h.schema < 8 then h.schema else 8;
      && -4 <= result.schema <= finest
      && (bucketLimit == 0 ==> result.schema == finest)
      && (bucketLimit > 0 ==>
          && result.BucketTotal() <= bucketLimit
          && forall s | result.schema < s <= finest :: BucketsWhen(h, s) > bucketLimit)
  {
    hide Base, ReducedSide, ValidLayout, BucketsAtSchema, BucketsWhen, Steps, Fits, CapIsFaithful;
    var h := Base(exposed, gauge);
    var capped := Capped(h, addFloat);
    if bucketLimit > 0 {
      StepsTotal(capped, capped.schema - result.schema, addFloat);
      forall s | result.schema < s <= capped.schema
        ensures BucketsWhen(h, s) > bucketLimit
      {
        CappedBuckets(h, addFloat, s);
      }
    }
  }

  /** The limit fails exactly when it fails at schema -4. */
  lemma TooManyBucketsExactly(
    exposed: Exposed, gauge: bool, bucketLimit: nat, addFloat: (F64, F64) -> F64,
    r: Result<Histogram, HistogramError>)
    requires Converted(Base(exposed, gauge), bucketLimit, addFloat, r)
    requires CapIsFaithful(Base(exposed, gauge)) && -4 <= Base(exposed, gauge).schema
    ensures r.Err? <==> bucketLimit > 0 && BucketsWhen(Base(exposed, gauge), -4) > bucketLimit
  {
    hide Base, ReducedSide, ValidLayout, BucketsAtSchema, BucketsWhen, Steps;
    var h := Base(exposed, gauge);
    CappedBuckets(h, addFloat, -4);
    if h.schema > 8 {
      FaithfulCapFits(h);
    }
  }

  lemma FaithfulCapFits(h: Histogram)
    requires Layouts(h) && h.schema > 8 && CapIsFaithful(h)
    ensures Fits(h, 8)
  {
    hide ReductionFits, ValidLayout;
    ReductionAlwaysFits(h.negative, h.schema - 8);
    ReductionAlwaysFits(h.positive, h.schema - 8);
  }
}
