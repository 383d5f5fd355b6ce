/** What the conversion of native histograms guarantees end to end. */
module ResolutionTheorems {
  import opened Basics
  import opened Model
  import opened BucketLayout
  import opened Rebucketing
  import opened SideReduction
  import opened NativeHistograms
  import opened HistogramConversion

  /** Masking a shift amount to 6 bits changes no bucket target of an `i32` index. */
  predicate FaithfulShift(shift: nat) {
    shift < 64 || shift % 64 >= 32
  }

  /** From shift 32 on, an `i32` index goes to bucket 0 or 1. */
  lemma FarTarget(index: int, shift: nat)
    requires InI32(index) && shift >= 32
    ensures Target(index, shift) == if index >= 1 then 1 else 0
  {
    hide Target;
    assert Pow2(shift) >= TWO_32 by { Pow2Monotone(32, shift); Pow2Values(); }
    TargetBound(index, shift, 1);
    TargetBound(index, shift, 0);
    TargetBound(index, shift, -1);
  }

  /** An index whose target is wrong when `shift` is masked. */
  function Misplaced(shift: nat): int {
    if shift % 64 == 31 then -TWO_31 else Pow2(shift % 64) + 1
  }

  lemma MisplacedIsWrong(shift: nat)
    requires !FaithfulShift(shift)
    ensures InI32(Misplaced(shift))
    ensures Target(Misplaced(shift), shift % 64) != Target(Misplaced(shift), shift)
  {
    var masked := shift % 64;
    Pow2Values();
    if masked != 31 {
      Pow2Monotone(masked, 30);
      TargetBound(Misplaced(shift), masked, 1);
    } else {
      TargetBound(-TWO_31, 31, -1);
    }
    FarTarget(Misplaced(shift), shift);
  }

  lemma {:induction false} SameTargetsMergeAlike<T>(indices: seq<int>, counts: seq<T>, a: nat, b: nat, add: (T, T) -> T)
    requires |indices| == |counts|
    requires forall i | 0 <= i < |indices| :: Target(indices[i], a) == Target(indices[i], b)
    ensures MergedIndices(indices, a) == MergedIndices(indices, b)
    ensures MergedCounts(indices, counts, a, add) == MergedCounts(indices, counts, b, add)
  {
    if indices != [] {
      SameTargetsMergeAlike(indices[..|indices| - 1], counts[..|indices| - 1], a, b, add);
    }
  }

  lemma FaithfulTarget(index: int, shift: nat)
    requires FaithfulShift(shift) && InI32(index)
    ensures Target(index, shift % 64) == Target(index, shift)
  {
    if shift >= 64 {
      FarTarget(index, shift % 64);
      FarTarget(index, shift);
    }
  }

  /** Masking the shift amount merges every accepted layout as intended exactly for faithful
      shifts: below 64, or so far beyond that the low six bits still say 32 or more. */
  lemma MaskedShiftIsRight(shift: nat)
    ensures FaithfulShift(shift) <==>
      forall spans | SpanFault(spans).None? ::
        MergedIndices(Indices(spans), shift % 64) == MergedIndices(Indices(spans), shift)
  {
    if FaithfulShift(shift) {
      forall spans | SpanFault(spans).None?
        ensures MergedIndices(Indices(spans), shift % 64) == MergedIndices(Indices(spans), shift)
      {
        ValidSpansLayout(spans);
        var indices := Indices(spans);
        forall i | 0 <= i < |indices|
          ensures Target(indices[i], shift % 64) == Target(indices[i], shift)
        {
          FaithfulTarget(indices[i], shift);
        }
        SameTargetsMergeAlike(indices, indices, shift % 64, shift, Plus);
      }
    } else {
      var index := Misplaced(shift);
      MisplacedIsWrong(shift);
      var spans := [BucketSpan(index, 1)];
      SingleBucket(index);
      assert MergedIndices([index], shift % 64) == [Target(index, shift % 64)];
      assert MergedIndices([index], shift) == [Target(index, shift)];
    }
  }

  lemma SingleBucket(index: int)
    requires InI32(index)
    ensures SpanFault([BucketSpan(index, 1)]).None? && Indices([BucketSpan(index, 1)]) == [index]
  {
    assert [BucketSpan(index, 1)][..0] == [];
    assert Run(index, 1) == [index];
  }

  // ----- one shot from the exposed schema

  lemma FaithfulSide(side: Side, shift: nat, addFloat: (F64, F64) -> F64)
    requires ValidLayout(side) && FaithfulShift(shift)
    ensures ReducedSide(side, shift % 64, addFloat) == ReducedSide(side, shift, addFloat)
  {
    ValidSpansLayout(side.spans);
    var indices := Indices(side.spans);
    forall i | 0 <= i < |indices|
      ensures Target(indices[i], shift % 64) == Target(indices[i], shift)
    {
      FaithfulTarget(indices[i], shift);
    }
    if side.counts == [] {
      SameTargetsMergeAlike<i64>(indices, Absolute(side.deltas), shift % 64, shift, WrapPlus);
    } else {
      SameTargetsMergeAlike(indices, side.counts, shift % 64, shift, addFloat);
    }
  }

  /** Whether the cap at schema 8 merges what it should. */
  predicate CapIsFaithful(h: Histogram) {
    h.schema > SCHEMA_MAX ==> FaithfulShift(h.schema - SCHEMA_MAX)
  }

  /** `h` itself, or `h` reduced once by the whole distance. */
  function AtSchema(h: Histogram, schema: i32, addFloat: (F64, F64) -> F64): (r: Histogram)
    requires Layouts(h) && schema <= h.schema
  {
    if schema == h.schema then h else Coarser(h, h.schema - schema, addFloat)
  }

  lemma CappedIsOneShot(h: Histogram, addFloat: (F64, F64) -> F64)
    requires Layouts(h) && CapIsFaithful(h)
    ensures Capped(h, addFloat) == AtSchema(h, Capped(h, addFloat).schema, addFloat)
  {
    hide ReducedSide, ValidLayout, FaithfulShift;
    if h.schema > SCHEMA_MAX {
      FaithfulSide(h.negative, h.schema - SCHEMA_MAX, addFloat);
      FaithfulSide(h.positive, h.schema - SCHEMA_MAX, addFloat);
    }
  }

  /** The cap and every step of the limit loop together equal one reduction of the exposed
      integer histogram to the resulting schema: same spans, same deltas. */
  lemma ConversionIsOneShot(
    h: Histogram, bucketLimit: nat, addFloat: (F64, F64) -> F64, result: Histogram)
    requires Layouts(h) && IsInteger(h) && CapIsFaithful(h)
    requires Converted(h, bucketLimit, addFloat, Ok(result))
    ensures result.schema <= h.schema && result == AtSchema(h, result.schema, addFloat)
  {
    hide ReducedSide, ValidLayout, FaithfulShift, BucketsAtSchema, Fits, Steps, Coarser;
    var capped := Capped(h, addFloat);
    CappedIsOneShot(h, addFloat);
    var k := capped.schema - result.schema;
    if k >= 1 {
      CappedIsInteger(h, addFloat);
      assert result == Coarser(capped, k, addFloat) by { StepsAreOneShot(capped, k, addFloat); }
      if capped.schema < h.schema {
        CoarserComposes(h, h.schema - capped.schema, k, addFloat);
      }
    } else {
      NoStep(capped, addFloat);
    }
  }

  lemma CappedIsInteger(h: Histogram, addFloat: (F64, F64) -> F64)
    requires Layouts(h) && IsInteger(h)
    ensures IsInteger(Capped(h, addFloat))
  {
    hide ReducedSide, ValidLayout;
  }

  lemma NoStep(h: Histogram, addFloat: (F64, F64) -> F64)
    requires Layouts(h)
    ensures Steps(h, 0, addFloat) == h
  {
  }

  // ----- meaning

  /** An integer side that validation accepts. */
  ghost predicate AcceptedSide(side: Side) {
    ValidLayout(side) && side.counts == [] && CountFault(side.deltas).None?
  }

  lemma ReducedSideMeaning(side: Side, shift: nat, addFloat: (F64, F64) -> F64)
    requires AcceptedSide(side)
    ensures SameDistribution(side, ReducedSide(side, shift, addFloat), shift) <==> MergedCountsFit(side, shift)
    ensures MergedCountsFit(side, shift) ==> FaultOf(ReducedSide(side, shift, addFloat)).None?
  {
    hide ReducedSide, CumulativeCount, Absolute, Indices, SideFault, CountFault, MergedCountsFit, SameDistribution;
    MeaningIsKeptExactly(side, shift, addFloat);
    if MergedCountsFit(side, shift) {
      ReductionPreservesMeaning(side, shift, addFloat, 0);
    }
  }

  /** Not reducing is reducing by nothing. */
  lemma UnreducedSideMeaning(side: Side)
    requires AcceptedSide(side)
    ensures SameDistribution(side, side, 0) && MergedCountsFit(side, 0) && FaultOf(side).None?
  {
    hide CumulativeCount, Absolute, Indices, CountFault, SpanFault, MergedCounts;
    assert Pow2(0) == 1;
    SideUnmerged(side);
    ValidIncreases(side);
    UnmergedCounts(Indices(side.spans), Absolute(side.deltas));
  }

  /** At shift 0 every count stays its own. */
  lemma {:induction false} UnmergedCounts(indices: seq<int>, counts: seq<int>)
    requires StrictlyIncreasing(indices) && |indices| == |counts|
    ensures MergedCounts(indices, counts, 0, Plus) == counts
  {
    hide Target, MergedIndices;
    if indices != [] {
      var last := |indices| - 1;
      var init := indices[..last];
      UnmergedCounts(init, counts[..last]);
      TargetOfZeroShift(indices[last]);
      MergedAtZero(init);
      assert init != [] ==> init[last - 1] < indices[last];
      assert counts == counts[..last] + [counts[last]];
    }
  }

  /** The main result: whatever schema the conversion settles on, both sides keep their cumulative
      distribution at every coarse bucket bound and their totals exactly when no merged count of
      that schema leaves `i64`, whatever wrapped on the way there; and then a receiver accepts
      them. */
  lemma ConversionPreservesMeaning(
    h: Histogram, bucketLimit: nat, addFloat: (F64, F64) -> F64, result: Histogram)
    requires AcceptedSide(h.negative) && AcceptedSide(h.positive) && CapIsFaithful(h)
    requires Layouts(h) && Converted(h, bucketLimit, addFloat, Ok(result))
    ensures result.schema <= h.schema
    ensures
      var shift := h.schema - result.schema;
      && (SameDistribution(h.negative, result.negative, shift) <==> MergedCountsFit(h.negative, shift))
      && (SameDistribution(h.positive, result.positive, shift) <==> MergedCountsFit(h.positive, shift))
      && (MergedCountsFit(h.negative, shift) ==> FaultOf(result.negative).None?)
      && (MergedCountsFit(h.positive, shift) ==> FaultOf(result.positive).None?)
  {
    hide SameDistribution, ReducedSide, Converted, CapIsFaithful, FaultOf, CountFault, Absolute, ValidLayout,
      MergedCountsFit;
    ConversionIsOneShot(h, bucketLimit, addFloat, result);
    if result.schema == h.schema {
      UnreducedSideMeaning(h.negative);
      UnreducedSideMeaning(h.positive);
    } else {
      ReducedSideMeaning(h.negative, h.schema - result.schema, addFloat);
      ReducedSideMeaning(h.positive, h.schema - result.schema, addFloat);
    }
  }
}
