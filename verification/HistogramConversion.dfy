/**
 `native_histogram`: building, validating, capping at schema 8 and lowering the
 schema until a bucket limit fits (`src/protobuf.rs:482-571`).
 */
module HistogramConversion {
  import opened Basics
  import opened Model
  import opened BucketLayout
  import opened Rebucketing
  import opened SideReduction
  import opened NativeHistograms

  // ----- the exposed message

  datatype ExposedSpan = ExposedSpan(offset: Option<i32>, length: Option<u32>)

  /** The native part of `dto::Histogram`, whose scalars are all optional. */
  datatype Exposed = Exposed(
    sampleCount: Option<u64>,
    sampleCountFloat: Option<F64>,
    sampleSum: Option<F64>,
    schema: Option<i32>,
    zeroThreshold: Option<F64>,
    zeroCount: Option<u64>,
    zeroCountFloat: Option<F64>,
    negativeSpans: seq<ExposedSpan>,
    negativeDeltas: seq<i64>,
    negativeCounts: seq<F64>,
    positiveSpans: seq<ExposedSpan>,
    positiveDeltas: seq<i64>,
    positiveCounts: seq<F64>)

  function OrZero(x: Option<int>): int {
    if x.Some? then x.value else 0
  }

  function Spans(spans: seq<ExposedSpan>): seq<BucketSpan> {
    seq(|spans|, i requires 0 <= i < |spans| => BucketSpan(OrZero(spans[i].offset), OrZero(spans[i].length)))
  }

  /** Any positive float count makes it a float histogram. */
  predicate IsFloat(exposed: Exposed) {
    IsPositive(OrZero(exposed.sampleCountFloat)) || IsPositive(OrZero(exposed.zeroCountFloat))
  }

  function Base(exposed: Exposed, gauge: bool): Histogram {
    var float := IsFloat(exposed);
    Histogram(
      if float then CountFloat(OrZero(exposed.sampleCountFloat)) else CountInt(OrZero(exposed.sampleCount)),
      OrZero(exposed.sampleSum),
      OrZero(exposed.schema),
      OrZero(exposed.zeroThreshold),
      if float then CountFloat(OrZero(exposed.zeroCountFloat)) else CountInt(OrZero(exposed.zeroCount)),
      Side(Spans(exposed.negativeSpans),
           if float then [] else exposed.negativeDeltas, if float then exposed.negativeCounts else []),
      Side(Spans(exposed.positiveSpans),
           if float then [] else exposed.positiveDeltas, if float then exposed.positiveCounts else []),
      if gauge then Gauge else Unknown)
  }

  function FaultOf(side: Side): Option<Fault> {
    SideFault(side.spans, side.BucketLen(), side.deltas)
  }

  /** Why the exposed histogram itself is rejected, if it is. */
  function Rejection(h: Histogram): Option<HistogramError> {
    if h.schema < SCHEMA_MIN then Some(SchemaTooLow(h.schema))
    else if FaultOf(h.negative).Some? then Some(InvalidSide(Negative, FaultOf(h.negative).value))
    else if FaultOf(h.positive).Some? then Some(InvalidSide(Positive, FaultOf(h.positive).value))
    else None
  }

  // ----- reductions of a whole histogram

  predicate Layouts(h: Histogram) {
    ValidLayout(h.negative) && ValidLayout(h.positive)
  }

  /** No float bucket counts on either side. */
  predicate IsInteger(h: Histogram) {
    h.negative.counts == [] && h.positive.counts == []
  }

  /** `shift` schemas coarser in one go. */
  function Coarser(h: Histogram, shift: nat, addFloat: (F64, F64) -> F64): (r: Histogram)
    requires Layouts(h) && InI32(h.schema - shift)
    ensures Layouts(r) && (IsInteger(h) ==> IsInteger(r))
  {
    h.(schema := h.schema - shift,
       negative := ReducedSide(h.negative, shift, addFloat),
       positive := ReducedSide(h.positive, shift, addFloat))
  }

  /** What `reduce_resolution` leaves behind: the shift amount is masked to 6 bits, the schema is not. */
  function Reduced(h: Histogram, target: i32, addFloat: (F64, F64) -> F64): (r: Histogram)
    requires Layouts(h)
    ensures Layouts(r) && r.schema == target && (IsInteger(h) ==> IsInteger(r))
  {
    var shift := (h.schema - target) % 64;
    h.(schema := target,
       negative := ReducedSide(h.negative, shift, addFloat),
       positive := ReducedSide(h.positive, shift, addFloat))
  }

  ghost predicate Fits(h: Histogram, target: i32) {
    ReductionFits(h.negative, h.schema - target) && ReductionFits(h.positive, h.schema - target)
  }

  /** `k` reductions by one schema each, as the bucket-limit loop performs them. */
  function Steps(h: Histogram, k: nat, addFloat: (F64, F64) -> F64): (r: Histogram)
    requires Layouts(h) && InI32(h.schema - k)
    ensures Layouts(r) && r.schema == h.schema - k && (IsInteger(h) ==> IsInteger(r))
  {
    if k == 0 then h
    else Reduced(Steps(h, k - 1, addFloat), h.schema - k, addFloat)
  }

  /** Buckets left over `shift` schemas coarser, on both sides together. */
  function BucketsAt(h: Histogram, shift: nat): nat {
    |MergedIndices(Indices(h.negative.spans), shift)| + |MergedIndices(Indices(h.positive.spans), shift)|
  }

  function BucketsAtSchema(h: Histogram, schema: int): nat
    requires schema <= h.schema
  {
    BucketsAt(h, h.schema - schema)
  }

  lemma BucketsAtSchemaShrinks(h: Histogram, coarse: int, fine: int)
    requires coarse <= fine <= h.schema
    ensures BucketsAtSchema(h, coarse) <= BucketsAtSchema(h, fine)
  {
    hide BucketsAt;
    BucketsAtShrinks(h, h.schema - fine, h.schema - coarse);
  }

  lemma BucketsAtShrinks(h: Histogram, a: nat, b: nat)
    requires a <= b
    ensures BucketsAt(h, b) <= BucketsAt(h, a)
  {
    hide MergedIndices, Indices;
    BucketsShrink(Indices(h.negative.spans), a, b);
    BucketsShrink(Indices(h.positive.spans), a, b);
  }

  /** One step merges each side once. */
  lemma ReducedByOne(h: Histogram, addFloat: (F64, F64) -> F64)
    requires Layouts(h) && InI32(h.schema - 1)
    ensures Reduced(h, h.schema - 1, addFloat) == Coarser(h, 1, addFloat)
  {
    hide ReducedSide, ValidLayout;
  }

  lemma OneStepFits(h: Histogram)
    requires Layouts(h) && InI32(h.schema - 1)
    ensures Fits(h, h.schema - 1)
  {
    hide ReductionFits, ValidLayout;
    ReductionAlwaysFits(h.negative, 1);
    ReductionAlwaysFits(h.positive, 1);
  }

  lemma SideStep(indices: seq<int>, side: Side, k: nat, addFloat: (F64, F64) -> F64)
    requires ValidLayout(side) && Indices(side.spans) == MergedIndices(indices, k)
    ensures Indices(ReducedSide(side, 1, addFloat).spans) == MergedIndices(indices, k + 1)
    ensures ReducedSide(side, 1, addFloat).BucketLen() == |MergedIndices(indices, k + 1)|
  {
    MergedIndicesCompose(indices, k, 1);
  }

  lemma SideUnmerged(side: Side)
    requires ValidLayout(side)
    ensures MergedIndices(Indices(side.spans), 0) == Indices(side.spans)
  {
    ValidSpansLayout(side.spans);
    MergedAtZero(Indices(side.spans));
  }

  /** `r` lays out exactly the buckets of `h` merged `shift` schemas coarser. */
  ghost predicate LayoutAt(h: Histogram, shift: nat, r: Histogram) {
    && Indices(r.negative.spans) == MergedIndices(Indices(h.negative.spans), shift)
    && Indices(r.positive.spans) == MergedIndices(Indices(h.positive.spans), shift)
    && r.BucketTotal() == BucketsAt(h, shift)
  }

  /** Step by step, the layouts are those of one reduction by the whole distance. */
  lemma {:induction false} StepsLayout(h: Histogram, k: nat, addFloat: (F64, F64) -> F64)
    requires Layouts(h) && InI32(h.schema - k)
    ensures LayoutAt(h, k, Steps(h, k, addFloat))
  {
    hide ReducedSide, ValidLayout, MergedIndices, Indices, Reduced;
    if k == 0 {
      SideUnmerged(h.negative);
      SideUnmerged(h.positive);
      LayoutLengths(h);
    } else {
      var before := Steps(h, k - 1, addFloat);
      StepsLayout(h, k - 1, addFloat);
      ReducedByOne(before, addFloat);
      SideStep(Indices(h.negative.spans), before.negative, k - 1, addFloat);
      SideStep(Indices(h.positive.spans), before.positive, k - 1, addFloat);
    }
  }

  lemma LayoutLengths(h: Histogram)
    requires Layouts(h)
    ensures h.BucketTotal() == |Indices(h.negative.spans)| + |Indices(h.positive.spans)|
  {
  }

  /** The number of buckets after `k` steps. */
  lemma StepsTotal(h: Histogram, k: nat, addFloat: (F64, F64) -> F64)
    requires Layouts(h) && InI32(h.schema - k)
    ensures Steps(h, k, addFloat).BucketTotal() == BucketsAtSchema(h, h.schema - k)
  {
    hide Steps, ValidLayout, MergedIndices, Indices;
    StepsLayout(h, k, addFloat);
  }

  lemma CoarserComposes(h: Histogram, a: nat, b: nat, addFloat: (F64, F64) -> F64)
    requires Layouts(h) && IsInteger(h) && InI32(h.schema - a) && InI32(h.schema - a - b)
    ensures Coarser(Coarser(h, a, addFloat), b, addFloat) == Coarser(h, a + b, addFloat)
  {
    hide ReducedSide, ValidLayout;
    ReductionComposes(h.negative, a, b, addFloat);
    ReductionComposes(h.positive, a, b, addFloat);
  }

  /** Stepwise reduction of an integer histogram is one-shot reduction, bit for bit. */
  lemma {:induction false} StepsAreOneShot(h: Histogram, k: nat, addFloat: (F64, F64) -> F64)
    requires Layouts(h) && IsInteger(h) && k >= 1 && InI32(h.schema - k)
    ensures Steps(h, k, addFloat) == Coarser(h, k, addFloat)
  {
    hide Reduced, Coarser, Layouts, IsInteger;
    ReducedByOne(Steps(h, k - 1, addFloat), addFloat);
    if k > 1 {
      StepsAreOneShot(h, k - 1, addFloat);
      CoarserComposes(h, k - 1, 1, addFloat);
    }
  }

  lemma ReducedSpans(side: Side, shift: nat, addFloat: (F64, F64) -> F64)
    requires ValidLayout(side)
    ensures ReducedSide(side, shift, addFloat).spans == Encode(MergedIndices(Indices(side.spans), shift))
  {
  }

  /** For any histogram, float counts included, at least the spans are those of one reduction. */
  lemma StepsSpansAreOneShot(h: Histogram, k: nat, addFloat: (F64, F64) -> F64)
    requires Layouts(h) && k >= 1 && InI32(h.schema - k)
    ensures Steps(h, k, addFloat).negative.spans == Coarser(h, k, addFloat).negative.spans
    ensures Steps(h, k, addFloat).positive.spans == Coarser(h, k, addFloat).positive.spans
  {
    hide ValidLayout, MergedIndices, Indices, Reduced, Encode, ReducedSide, BucketsAt;
    var before := Steps(h, k - 1, addFloat);
    StepsLayout(h, k - 1, addFloat);
    ReducedByOne(before, addFloat);
    StepSpans(h.negative, before.negative, k, addFloat);
    StepSpans(h.positive, before.positive, k, addFloat);
  }

  lemma StepSpans(side: Side, before: Side, k: nat, addFloat: (F64, F64) -> F64)
    requires ValidLayout(side) && ValidLayout(before) && k >= 1
    requires Indices(before.spans) == MergedIndices(Indices(side.spans), k - 1)
    ensures ReducedSide(before, 1, addFloat).spans == ReducedSide(side, k, addFloat).spans
  {
    hide ValidLayout, MergedIndices, Indices, Encode, ReducedSide;
    ReducedSpans(before, 1, addFloat);
    ReducedSpans(side, k, addFloat);
    MergedIndicesCompose(Indices(side.spans), k - 1, 1);
  }

  // ----- the bucket limit

  /** `result` has the finest schema at or below `h`'s whose buckets fit `limit`. */
  ghost predicate FinestFit(h: Histogram, result: Histogram, limit: nat) {
    && SCHEMA_MIN <= result.schema <= h.schema
    && BucketsAtSchema(h, result.schema) <= limit
    && forall s | result.schema < s <= h.schema :: BucketsAtSchema(h, s) > limit
  }

  /** Some schema down to the coarsest fits exactly when the coarsest does. */
  lemma FitsIffCoarsestFits(h: Histogram, limit: nat)
    requires h.schema >= SCHEMA_MIN
    ensures BucketsAtSchema(h, SCHEMA_MIN) <= limit <==>
      exists s | SCHEMA_MIN <= s <= h.schema :: BucketsAtSchema(h, s) <= limit
  {
    forall s | SCHEMA_MIN <= s <= h.schema
      ensures BucketsAtSchema(h, SCHEMA_MIN) <= BucketsAtSchema(h, s)
    {
      BucketsAtSchemaShrinks(h, SCHEMA_MIN, s);
    }
  }

  /** The histogram the conversion mutates (`model::Histogram` in `&mut` position). */
  class NativeHistogram {
    var schema: i32
    var negative: Side
    var positive: Side
    const template: Histogram

    constructor (h: Histogram)
      ensures Value() == h
    {
      schema, negative, positive, template := h.schema, h.negative, h.positive, h;
    }

    function Value(): Histogram
      reads this
    {
      template.(schema := schema, negative := negative, positive := positive)
    }

    /** Merge buckets down to `target`; zero bucket, sum and count are unaffected. */
    method ReduceResolution(target: i32, addFloat: (F64, F64) -> F64) returns (r: Result<(), Fault>)
      requires Layouts(Value())
      modifies this
      ensures r.Ok? <==> old(Fits(Value(), target))
      ensures r.Ok? ==> Value() == old(Reduced(Value(), target, addFloat))
    {
      hide ReducedSide, ReductionFits, ValidLayout;
      var shift: int := schema;
      shift := shift - target;
      var reducedNegative := ReduceSide(negative, shift, addFloat);
      if reducedNegative.Err? {
        return Err(reducedNegative.error);
      }
      negative := reducedNegative.value;
      var reducedPositive := ReduceSide(positive, shift, addFloat);
      if reducedPositive.Err? {
        return Err(reducedPositive.error);
      }
      positive := reducedPositive.value;
      schema := target;
      r := Ok(());
    }

    /** Lower the schema one by one until both sides together fit `limit` buckets. */
    method LimitBuckets(limit: nat, addFloat: (F64, F64) -> F64) returns (r: Result<(), HistogramError>)
      requires Layouts(Value()) && schema >= SCHEMA_MIN
      modifies this
      ensures r.Ok? ==>
        && FinestFit(old(Value()), Value(), limit)
        && Value() == Steps(old(Value()), old(schema) - schema, addFloat)
      ensures r.Err? ==>
        && r.error == TooManyBuckets(limit)
        && old(BucketsAtSchema(Value(), SCHEMA_MIN)) > limit
    {
      hide ValidLayout, Fits, BucketsAtSchema, Reduced;
      ghost var h := Value();
      while negative.BucketLen() + positive.BucketLen() > limit
        invariant SCHEMA_MIN <= schema <= h.schema
        invariant Value() == Steps(h, h.schema - schema, addFloat)
        invariant forall s | schema < s <= h.schema :: BucketsAtSchema(h, s) > limit
        decreases schema - SCHEMA_MIN
      {
        StepsTotal(h, h.schema - schema, addFloat);
        if schema <= SCHEMA_MIN {
          return Err(TooManyBuckets(limit));
        }
        OneStepFits(Value());
        var coarser := schema - 1;
        var step := ReduceResolution(coarser, addFloat);
      }
      StepsTotal(h, h.schema - schema, addFloat);
      r := Ok(());
    }
  }

  /** The histogram after the cap at schema 8. */
  function Capped(h: Histogram, addFloat: (F64, F64) -> F64): (r: Histogram)
    requires Layouts(h)
    ensures Layouts(r)
  {
    if h.schema > SCHEMA_MAX then Reduced(h, SCHEMA_MAX, addFloat) else h
  }

  /** An accepted histogram has valid layouts. */
  lemma AcceptedLayouts(exposed: Exposed, gauge: bool)
    requires Rejection(Base(exposed, gauge)).None?
    ensures Layouts(Base(exposed, gauge))
  {
  }

  /** The outcome for an accepted histogram: capped at schema 8, then the finest schema that fits. */
  ghost predicate Converted(
    h: Histogram, bucketLimit: nat, addFloat: (F64, F64) -> F64, r: Result<Histogram, HistogramError>)
  {
    && Layouts(h)
    && var capped := Capped(h, addFloat);
    && capped.schema >= SCHEMA_MIN
    && if h.schema > SCHEMA_MAX && !Fits(h, SCHEMA_MAX) then r.Err? && r.error.ReductionFailed?
       else if bucketLimit == 0 then r == Ok(capped)
       else if BucketsAtSchema(capped, SCHEMA_MIN) > bucketLimit then r == Err(TooManyBuckets(bucketLimit))
       else
         && r.Ok? && FinestFit(capped, r.value, bucketLimit)
         && r.value == Steps(capped, capped.schema - r.value.schema, addFloat)
  }

  method Convert(exposed: Exposed, gauge: bool, bucketLimit: u32, addFloat: (F64, F64) -> F64)
    returns (r: Result<Histogram, HistogramError>)
    ensures Rejection(Base(exposed, gauge)).Some? ==> r == Err(Rejection(Base(exposed, gauge)).value)
    ensures Rejection(Base(exposed, gauge)).None? ==> Converted(Base(exposed, gauge), bucketLimit, addFloat, r)
  {
    hide ValidLayout, Fits, BucketsAtSchema, Steps, SideFault, IsFloat;
    var h := Base(exposed, gauge);
    if h.schema < SCHEMA_MIN {
      return Err(SchemaTooLow(h.schema));
    }
    var fault := ValidateSide(h.negative.spans, h.negative.BucketLen(), h.negative.deltas);
    if fault.Some? {
      return Err(InvalidSide(Negative, fault.value));
    }
    fault := ValidateSide(h.positive.spans, h.positive.BucketLen(), h.positive.deltas);
    if fault.Some? {
      return Err(InvalidSide(Positive, fault.value));
    }
    AcceptedLayouts(exposed, gauge);
    r := LowerResolution(h, bucketLimit, addFloat);
  }

  /** The part of the conversion after validation. */
  method LowerResolution(h: Histogram, bucketLimit: u32, addFloat: (F64, F64) -> F64)
    returns (r: Result<Histogram, HistogramError>)
    requires Layouts(h) && h.schema >= SCHEMA_MIN
    ensures Converted(h, bucketLimit, addFloat, r)
  {
    hide Layouts, Fits, BucketsAtSchema, Steps, Reduced;
    var histogram := new NativeHistogram(h);
    if histogram.schema > SCHEMA_MAX {
      var capping := histogram.ReduceResolution(SCHEMA_MAX, addFloat);
      if capping.Err? {
        return Err(ReductionFailed(capping.error));
      }
    }
    ghost var capped := histogram.Value();
    assert capped == Capped(h, addFloat);
    if bucketLimit > 0 {
      var limiting := histogram.LimitBuckets(bucketLimit, addFloat);
      if limiting.Err? {
        return Err(limiting.error);
      }
      BucketsAtSchemaShrinks(capped, SCHEMA_MIN, histogram.schema);
    }
    r := Ok(histogram.Value());
  }
}
