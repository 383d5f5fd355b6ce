/** Exposed histograms that the conversion accepts and gets wrong (`src/protobuf.rs:482-570`). */
module ConversionWitnesses {
  import opened Basics
  import opened Model
  import opened BucketLayout
  import opened Rebucketing
  import opened SideReduction
  import opened NativeHistograms
  import opened HistogramConversion

  /** An integer histogram with the two positive buckets 1 and 2. */
  function TwoBuckets(schema: i32, first: i64, change: i64): Exposed {
    Exposed(
      None, None, None, Some(schema), None, None, None, [], [], [],
      [ExposedSpan(Some(1), Some(2))], [first, change], [])
  }

  const TWO_SPAN: seq<BucketSpan> := [BucketSpan(1, 2)]
  const ONE_SPAN: seq<BucketSpan> := [BucketSpan(1, 1)]
  const NO_SIDE := Side([], [], [])

  lemma TwoBucketsBase(schema: i32, first: i64, change: i64, gauge: bool)
    ensures
      var h := Base(TwoBuckets(schema, first, change), gauge);
      && h.schema == schema && h.negative == NO_SIDE && h.positive == Side(TWO_SPAN, [first, change], [])
  {
  }

  lemma TwoSpanLayout()
    ensures SpanFault(TWO_SPAN).None? && Indices(TWO_SPAN) == [1, 2] && Encode([1, 2]) == TWO_SPAN
  {
    assert TWO_SPAN[..0] == [];
    assert Run(1, 2) == [1, 2];
    CanonicalIsValid(TWO_SPAN);
    CanonicalRoundTrip(TWO_SPAN);
  }

  lemma OneSpanLayout()
    ensures Indices(ONE_SPAN) == [1] && Encode([1]) == ONE_SPAN
  {
    assert ONE_SPAN[..0] == [];
    assert Run(1, 1) == [1];
    CanonicalRoundTrip(ONE_SPAN);
  }

  lemma BothTargets(shift: nat)
    requires shift >= 1
    ensures Target(1, shift) == 1 && Target(2, shift) == 1
  {
    hide Target;
    Pow2Monotone(1, shift);
    assert Pow2(1) == 2;
    TargetBound(1, shift, 1);
    TargetBound(1, shift, 0);
    TargetBound(2, shift, 1);
    TargetBound(2, shift, 0);
  }

  lemma NothingMerged<T>(shift: nat, add: (T, T) -> T)
    ensures MergedIndices([], shift) == [] && MergedCounts([], [], shift, add) == []
  {
  }

  lemma OneMerged<T>(count: T, shift: nat, add: (T, T) -> T)
    ensures MergedIndices([1], shift) == [Target(1, shift)] && MergedCounts([1], [count], shift, add) == [count]
  {
    hide Target, MergedIndices, MergedCounts;
    NothingMerged(shift, add);
    assert [] + [1] == [1] && [] + [count] == [count] && [] + [Target(1, shift)] == [Target(1, shift)];
    MergeSnoc([], [], 1, count, shift, add);
  }

  /** From shift 1 on both buckets go to bucket 1 and their counts are added. */
  lemma BothIntoOne<T>(count: T, shift: nat, add: (T, T) -> T)
    requires shift >= 1
    ensures MergedIndices([1, 2], shift) == [1]
    ensures MergedCounts([1, 2], [count, count], shift, add) == [add(count, count)]
  {
    hide Target, MergedIndices, MergedCounts;
    BothTargets(shift);
    OneMerged(count, shift, add);
    assert [1] + [2] == [1, 2] && [count] + [count] == [count, count];
    MergeSnoc([1], [count], 2, count, shift, add);
    assert AddedToLast([count], count, add) == [add(count, count)];
  }

  lemma AbsoluteTwo(first: i64)
    ensures Absolute([first, 0]) == [first, first] && Deltas([first, first]) == [first, 0]
    ensures Absolute([first]) == [first] && Deltas([first]) == [first]
    ensures first >= 0 ==> CountFault([first, 0]).None?
    ensures first < 0 ==> CountFault([first]) == Some(NegativeCount(first))
  {
    assert [first, 0][..1] == [first] && [first, first][..1] == [first] && [first][..0] == [];
    assert first >= 0 ==> CountFault([first]).None?;
  }

  lemma NothingToReduce(shift: nat, addFloat: (F64, F64) -> F64)
    ensures ValidLayout(NO_SIDE) && ReducedSide(NO_SIDE, shift, addFloat) == NO_SIDE
  {
  }

  // ----- a merged count that overflows

  /** Both counts are the largest `i64`. */
  const HUGE_COUNTS: Exposed := TwoBuckets(0, TWO_63 - 1, 0)

  const HUGE_SIDE := Side(TWO_SPAN, [TWO_63 - 1, 0], [])

  lemma HugeSide(addFloat: (F64, F64) -> F64)
    ensures ValidLayout(HUGE_SIDE) && SideFault(HUGE_SIDE.spans, HUGE_SIDE.BucketLen(), HUGE_SIDE.deltas).None?
    ensures Indices(HUGE_SIDE.spans) == [1, 2]
    ensures ReducedSide(HUGE_SIDE, 1, addFloat) == Side(ONE_SPAN, [-2], [])
  {
    hide MergedCounts, MergedIndices, Indices, Encode, Absolute, Deltas, SpanFault, CountFault;
    TwoSpanLayout();
    OneSpanLayout();
    BothIntoOne<i64>(TWO_63 - 1, 1, WrapPlus);
    AbsoluteTwo(TWO_63 - 1);
    AbsoluteTwo(-2);
  }

  /** The one merged count is 2^64 - 2. */
  lemma HugeDoesNotFit()
    ensures ValidLayout(HUGE_SIDE) && !MergedCountsFit(HUGE_SIDE, 1)
  {
    hide MergedCounts, MergedIndices, Indices, Absolute, SpanFault;
    TwoSpanLayout();
    BothIntoOne<int>(TWO_63 - 1, 1, Plus);
    AbsoluteTwo(TWO_63 - 1);
    assert TrueMerged(HUGE_SIDE, 1)[0] == TWO_64 - 2;
  }

  /** An accepted histogram whose conversion, under a limit of one bucket, is exactly one with the
      count -2, which its own validation rejects. */
  lemma OverflowIsEmitted(gauge: bool, addFloat: (F64, F64) -> F64, r: Result<Histogram, HistogramError>)
    ensures Rejection(Base(HUGE_COUNTS, gauge)).None?
    ensures
      var emitted := Base(HUGE_COUNTS, gauge).(schema := -1, positive := Side(ONE_SPAN, [-2], []));
      && (Converted(Base(HUGE_COUNTS, gauge), 1, addFloat, r) <==> r == Ok(emitted))
      && FaultOf(emitted.positive) == Some(NegativeCount(-2))
    ensures Base(HUGE_COUNTS, gauge).positive == HUGE_SIDE
    ensures ValidLayout(HUGE_SIDE) && !MergedCountsFit(HUGE_SIDE, 1)
  {
    hide ReducedSide, ValidLayout, MergedIndices, Indices, MergedCountsFit, Absolute, Deltas, CountFault, SpanFault;
    var h := Base(HUGE_COUNTS, gauge);
    TwoBucketsBase(0, TWO_63 - 1, 0, gauge);
    HugeSide(addFloat);
    HugeDoesNotFit();
    NothingToReduce(1, addFloat);
    NoIndices();
    assert Rejection(h).None?;
    var emitted := h.(schema := -1, positive := Side(ONE_SPAN, [-2], []));
    assert Coarser(h, 1, addFloat) == emitted;
    EmittedAt(h, 1, addFloat, r);
    EmittedFault();
  }

  lemma NoIndices()
    ensures Indices([]) == [] && SpanFault([]).None? && CountFault([]).None? && MergedIndices([], 0) == []
  {
  }

  lemma EmittedFault()
    ensures SideFault(ONE_SPAN, 1, [-2]) == Some(NegativeCount(-2))
  {
    OneSpanLayout();
    AbsoluteTwo(-2);
    assert ONE_SPAN[..0] == [] && SpanFault(ONE_SPAN).None?;
  }

  /** Two buckets at schema 0 that merge into one at schema -1: under a limit of one bucket the
      conversion is exactly one step. */
  lemma EmittedAt(
    h: Histogram, limit: nat, addFloat: (F64, F64) -> F64, r: Result<Histogram, HistogramError>)
    requires Layouts(h) && h.schema == 0 && limit == 1
    requires Indices(h.negative.spans) == [] && Indices(h.positive.spans) == [1, 2]
    ensures Converted(h, limit, addFloat, r) <==> r == Ok(Coarser(h, 1, addFloat))
  {
    hide ReducedSide, ValidLayout, MergedIndices, Indices, Layouts, Steps, BucketsAtSchema, Coarser;
    OneBucketEach(h);
    BucketsAtSchemaShrinks(h, SCHEMA_MIN, -1);
    StepsOnce(h, addFloat);
    forall s | SCHEMA_MIN <= s < 0
      ensures BucketsAtSchema(h, s) <= 1
    {
      BucketsAtSchemaShrinks(h, s, -1);
    }
  }

  lemma OneBucketEach(h: Histogram)
    requires h.schema == 0 && Indices(h.negative.spans) == [] && Indices(h.positive.spans) == [1, 2]
    ensures BucketsAtSchema(h, 0) == 2 && BucketsAtSchema(h, -1) == 1
  {
    hide MergedIndices, Indices;
    MergedSizes(Indices(h.negative.spans), Indices(h.positive.spans));
  }

  lemma MergedSizes(none: seq<int>, both: seq<int>)
    requires none == [] && both == [1, 2]
    ensures |MergedIndices(none, 0)| == |MergedIndices(none, 1)| == 0
    ensures |MergedIndices(both, 0)| == 2 && |MergedIndices(both, 1)| == 1
  {
    hide MergedIndices;
    assert |MergedIndices(both, 1)| == 1 by {
      BothIntoOne<int>(0, 1, Plus);
    }
    assert |MergedIndices(both, 0)| == 2 by {
      TwoUnmerged();
    }
  }

  lemma TwoUnmerged()
    ensures MergedIndices([1, 2], 0) == [1, 2]
  {
    hide MergedIndices;
    Ascending();
    MergedAtZero([1, 2]);
  }

  lemma Ascending()
    ensures StrictlyIncreasing([1, 2])
  {
  }

  lemma StepsOnce(h: Histogram, addFloat: (F64, F64) -> F64)
    requires Layouts(h) && h.schema == 0
    ensures Steps(h, 1, addFloat) == Coarser(h, 1, addFloat)
  {
    hide ReducedSide, ValidLayout;
    assert Steps(h, 0, addFloat) == h;
    ReducedByOne(h, addFloat);
  }

  // ----- a schema whose cap merges nothing

  const FINE_SCHEMA: Exposed := TwoBuckets(72, 5, 0)

  /** Exposed at schema 72, the histogram comes out at schema 8 with nothing merged, although
      reducing it by 64 schemas puts both buckets into one. */
  lemma SchemaSeventyTwoIsNotReduced(gauge: bool, addFloat: (F64, F64) -> F64, r: Result<Histogram, HistogramError>)
    ensures Rejection(Base(FINE_SCHEMA, gauge)).None?
    ensures Converted(Base(FINE_SCHEMA, gauge), 0, addFloat, r) <==>
      r == Ok(Base(FINE_SCHEMA, gauge).(schema := SCHEMA_MAX))
    ensures Base(FINE_SCHEMA, gauge).positive.spans == TWO_SPAN
    ensures ValidLayout(Base(FINE_SCHEMA, gauge).positive)
    ensures ReducedSide(Base(FINE_SCHEMA, gauge).positive, 72 - SCHEMA_MAX, addFloat).spans == ONE_SPAN
  {
    hide ReducedSide, ValidLayout, ReductionFits, MergedIndices, Indices, CountFault, SpanFault;
    var h := Base(FINE_SCHEMA, gauge);
    TwoBucketsBase(72, 5, 0, gauge);
    FineSide(addFloat);
    NothingToReduce(0, addFloat);
    NoIndices();
    assert Rejection(h).None?;
    NothingFits();
    assert Capped(h, addFloat) == h.(schema := SCHEMA_MAX);
  }

  lemma NothingFits()
    ensures ReductionFits(NO_SIDE, 64)
  {
    assert MergedIndices([], 0) == [];
  }

  lemma FineSide(addFloat: (F64, F64) -> F64)
    ensures
      var side := Side(TWO_SPAN, [5, 0], []);
      && ValidLayout(side) && SideFault(side.spans, side.BucketLen(), side.deltas).None?
      && ReducedSide(side, 0, addFloat) == side && ReductionFits(side, 64)
      && ReducedSide(side, 64, addFloat).spans == ONE_SPAN
  {
    var side := Side(TWO_SPAN, [5, 0], []);
    hide MergedCounts, MergedIndices, Indices, Encode, Absolute, Deltas, SpanFault, CountFault;
    TwoSpanLayout();
    OneSpanLayout();
    Ascending();
    MergedAtZero([1, 2]);
    BothIntoOne<i64>(5, 64, WrapPlus);
    AbsoluteTwo(5);
    UnmergedTwo();
    assert GapsFit([1, 2]);
  }

  lemma UnmergedTwo()
    ensures MergedCounts<i64>([1, 2], [5, 5], 0, WrapPlus) == [5, 5]
  {
    assert [1, 2][..1] == [1] && [5, 5][..1] == [5] && [1][..0] == [] && [5][..0] == [];
    TargetOfZeroShift(1);
    TargetOfZeroShift(2);
  }
}
