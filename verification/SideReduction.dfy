/**
 One side of a native histogram: what `validate_side` accepts and what reducing
 its resolution means (`src/protobuf.rs:590-673`).
 */
module SideReduction {
  import opened Basics
  import opened Model
  import opened BucketLayout
  import opened Rebucketing

  // ----- deltas

  /** Absolute counts of a delta-encoded side. */
  function Absolute(deltas: seq<i64>): (counts: seq<i64>)
    ensures |counts| == |deltas|
  {
    if deltas == [] then []
    else
      var counts := Absolute(deltas[..|deltas| - 1]);
      counts + [WrapAdd(LastCount(counts), deltas[|deltas| - 1])]
  }

  function Deltas(counts: seq<i64>): (deltas: seq<i64>)
    ensures |deltas| == |counts|
  {
    if counts == [] then []
    else
      var init := counts[..|counts| - 1];
      Deltas(init) + [Wrap(counts[|counts| - 1] - LastCount(init))]
  }

  function LastCount(counts: seq<i64>): i64 {
    if counts == [] then 0 else counts[|counts| - 1]
  }

  lemma {:induction false} AbsoluteOfDeltas(counts: seq<i64>)
    ensures Absolute(Deltas(counts)) == counts
  {
    hide Wrap;
    if counts != [] {
      var init, last := counts[..|counts| - 1], counts[|counts| - 1];
      AbsoluteOfDeltas(init);
      WrapOfWrap(LastCount(init), last - LastCount(init));
      assert WrapAdd(LastCount(init), Wrap(last - LastCount(init))) == last;
      var deltas := Deltas(counts);
      assert deltas[..|deltas| - 1] == Deltas(init);
      assert counts == init + [last];
    }
  }

  // ----- validation

  datatype Fault =
    | NegativeOffset(span: nat)
    | IndexOutOfRange(index: int)
    | CoverageMismatch(covered: nat, buckets: nat)
    | CountOverflow
    | NegativeCount(count: int)
    | SpansExceedBuckets

  /** First fault of a span list, if any: no span after the first may go back,
      and all indices must fit `i32`, those of empty spans included. */
  function SpanFault(spans: seq<BucketSpan>): Option<Fault> {
    if spans == [] then None
    else
      var k := |spans| - 1;
      var earlier := SpanFault(spans[..k]);
      var first := End(spans[..k]) + spans[k].offset;
      var last := first + Max(spans[k].length, 1) - 1;
      if earlier.Some? then earlier
      else if k > 0 && spans[k].offset < 0 then Some(NegativeOffset(k))
      else if !InI32(first) || !InI32(last) then Some(IndexOutOfRange(last))
      else None
  }

  /** First fault of the counts: one overflows `i64` or is negative. */
  function CountFault(deltas: seq<i64>): Option<Fault> {
    if deltas == [] then None
    else
      var init := deltas[..|deltas| - 1];
      var next := LastCount(Absolute(init)) + deltas[|deltas| - 1];
      if CountFault(init).Some? then CountFault(init)
      else if !InI64(next) then Some(CountOverflow)
      else if next < 0 then Some(NegativeCount(next))
      else None
  }

  function SideFault(spans: seq<BucketSpan>, buckets: nat, deltas: seq<i64>): Option<Fault> {
    if SpanFault(spans).Some? then SpanFault(spans)
    else if |Indices(spans)| != buckets then Some(CoverageMismatch(|Indices(spans)|, buckets))
    else CountFault(deltas)
  }

  /** The layout half of validity, kept even when counts overflow. */
  predicate ValidLayout(side: Side) {
    && (side.deltas == [] || side.counts == [])
    && SpanFault(side.spans).None?
    && |Indices(side.spans)| == side.BucketLen()
  }

  lemma {:induction false} ValidSpansLayout(spans: seq<BucketSpan>)
    requires SpanFault(spans).None?
    ensures StrictlyIncreasing(Indices(spans))
    ensures Within(Indices(spans), -TWO_31, TWO_31 - 1)
    ensures forall i | 0 <= i < |Indices(spans)| :: Indices(spans)[i] < End(spans)
  {
    if spans != [] {
      var k := |spans| - 1;
      ValidSpansLayout(spans[..k]);
      var before, first := Indices(spans[..k]), End(spans[..k]) + spans[k].offset;
      var run := Run(first, spans[k].length);
      assert Indices(spans) == before + run;
      if k == 0 {
        assert before == [];
      }
    }
  }

  /** Accepted deltas are exactly those all of whose partial sums are counts an `i64` holds. */
  lemma {:induction false} ValidCounts(deltas: seq<i64>)
    ensures CountFault(deltas).None? <==> forall n | 0 <= n <= |deltas| :: 0 <= Sum(deltas[..n]) < TWO_63
    ensures CountFault(deltas).None? ==> LastCount(Absolute(deltas)) == Sum(deltas)
  {
    assert deltas[..|deltas|] == deltas;
    if deltas == [] {
      assert forall n | 0 <= n <= |deltas| :: deltas[..n] == [];
    } else {
      var init := deltas[..|deltas| - 1];
      ValidCounts(init);
      assert forall n | 0 <= n < |deltas| :: deltas[..n] == init[..n];
    }
  }

  /** Delta-encoding non-negative counts is accepted. */
  lemma {:induction false} DeltasOfNonNegative(counts: seq<i64>)
    requires forall i | 0 <= i < |counts| :: counts[i] >= 0
    ensures CountFault(Deltas(counts)).None?
  {
    if counts != [] {
      var init := counts[..|counts| - 1];
      DeltasOfNonNegative(init);
      AbsoluteOfDeltas(init);
      var deltas := Deltas(counts);
      assert deltas[..|deltas| - 1] == Deltas(init);
    }
  }

  /** Canonical spans over in-range indices are accepted. */
  lemma {:induction false} CanonicalIsValid(spans: seq<BucketSpan>)
    requires Canonical(spans) && Within(Indices(spans), -TWO_31, TWO_31 - 1)
    ensures SpanFault(spans).None?
  {
    if spans != [] {
      var init, span := spans[..|spans| - 1], spans[|spans| - 1];
      var before, first := Indices(init), End(init) + span.offset;
      var run := Run(first, span.length);
      assert Indices(spans) == before + run;
      assert forall i | 0 <= i < |before| :: before[i] == Indices(spans)[i];
      CanonicalIsValid(init);
      assert Indices(spans)[|before|] == first && Indices(spans)[|before| + span.length - 1] == first + span.length - 1;
    }
  }

  /** Run-length encoding an increasing, in-range index sequence is accepted and canonical. */
  lemma EncodeIsValid(indices: seq<int>)
    requires StrictlyIncreasing(indices) && Within(indices, -TWO_31, TWO_31 - 1)
    ensures Canonical(Encode(indices)) && SpanFault(Encode(indices)).None?
  {
    EncodeIsCanonical(indices);
    EncodeRoundTrip(indices);
    CanonicalIsValid(Encode(indices));
  }

  // ----- reduction

  /** One side `shift` schemas coarser: integer sides are decoded, merged and re-encoded.
      The result lays out exactly the merged indices, and is valid again. */
  function ReducedSide(side: Side, shift: nat, addFloat: (F64, F64) -> F64): (reduced: Side)
    requires ValidLayout(side)
    ensures ValidLayout(reduced)
    ensures Indices(reduced.spans) == MergedIndices(Indices(side.spans), shift)
    ensures side.counts == [] ==> reduced.counts == []
  {
    MergedLayoutIsValid(side.spans, shift);
    var indices := Indices(side.spans);
    var spans := Encode(MergedIndices(indices, shift));
    if side.counts == [] then
      Side(spans, Deltas(MergedCounts<i64>(indices, Absolute(side.deltas), shift, WrapPlus)), [])
    else
      Side(spans, side.deltas, MergedCounts(indices, side.counts, shift, addFloat))
  }

  /** Merging a valid layout gives a valid one, in canonical form. */
  lemma MergedLayoutIsValid(spans: seq<BucketSpan>, shift: nat)
    requires SpanFault(spans).None?
    ensures
      var merged := Encode(MergedIndices(Indices(spans), shift));
      && SpanFault(merged).None? && Canonical(merged)
      && Indices(merged) == MergedIndices(Indices(spans), shift)
  {
    ValidSpansLayout(spans);
    MergedStrictlyIncreasing(Indices(spans), shift);
    MergedWithin(Indices(spans), shift);
    EncodeIsValid(MergedIndices(Indices(spans), shift));
    EncodeRoundTrip(MergedIndices(Indices(spans), shift));
  }

  /** Offsets fit `i32` and lengths do not pass `bound`. */
  ghost predicate SpansFit(spans: seq<BucketSpan>, bound: nat) {
    forall i | 0 <= i < |spans| :: InI32(spans[i].offset) && spans[i].length <= bound
  }

  /** Merged spans fit the wire's `sint32` offsets and `uint32` lengths as soon as anything merges. */
  lemma MergedSpansFit(spans: seq<BucketSpan>, shift: nat)
    requires SpanFault(spans).None? && shift >= 1
    ensures
      SpansFit(Encode(MergedIndices(Indices(spans), shift)), TWO_32 - 1)
  {
    var merged := MergedIndices(Indices(spans), shift);
    ValidSpansLayout(spans);
    assert GapsFit(merged) by { MergedGapsFit(Indices(spans), shift); }
    assert |merged| < TWO_32 by {
      MergedStrictlyIncreasing(Indices(spans), shift);
      MergedWithin(Indices(spans), shift);
      IncreasingLength(merged, -0x4000_0000, 0x4000_0000);
    }
    EncodeFits(merged);
  }

  lemma {:induction false} IncreasingLength(indices: seq<int>, low: int, high: int)
    requires StrictlyIncreasing(indices) && Within(indices, low, high)
    ensures indices != [] ==> |indices| <= indices[|indices| - 1] - low + 1
  {
    if |indices| > 1 {
      IncreasingLength(indices[..|indices| - 1], low, high);
    }
  }

  lemma {:induction false} EncodeFits(indices: seq<int>)
    requires GapsFit(indices)
    ensures SpansFit(Encode(indices), |indices|)
  {
    if indices != [] {
      var init := indices[..|indices| - 1];
      assert GapsFit(init) by {
        assert forall j | 0 <= j < |init| :: Gap(init, j) == Gap(indices, j);
      }
      EncodeFits(init);
      assert InI32(Gap(indices, |init|));
    }
  }

  /** Stepwise reduction of an integer side equals one-shot reduction: same spans, same deltas. */
  lemma ReductionComposes(side: Side, a: nat, b: nat, addFloat: (F64, F64) -> F64)
    requires ValidLayout(side) && side.counts == []
    ensures ReducedSide(ReducedSide(side, a, addFloat), b, addFloat) == ReducedSide(side, a + b, addFloat)
  {
    var indices, counts := Indices(side.spans), Absolute(side.deltas);
    AbsoluteOfDeltas(MergedCounts<i64>(indices, counts, a, WrapPlus));
    MergedIndicesCompose(indices, a, b);
    WrapPlusAssociative();
    MergedCountsCompose<i64>(indices, counts, a, b, WrapPlus);
  }

  /** The widest accepted layout: the least and the greatest `i32` index, the gap between them made
      of two spans because one offset cannot hold it. */
  const WIDEST: seq<BucketSpan> := [
    BucketSpan(-TWO_31, 1), BucketSpan(TWO_31 - 1, 0), BucketSpan(TWO_31 - 1, 1)]

  lemma WidestLayout()
    ensures SpanFault(WIDEST).None? && Indices(WIDEST) == [-TWO_31, TWO_31 - 1]
  {
    var one, two := WIDEST[..1], WIDEST[..2];
    assert WIDEST[..2][..1] == one && one[..0] == [] && WIDEST[..|WIDEST| - 1] == two;
    assert Run(-TWO_31, 1) == [-TWO_31] && Run(TWO_31 - 1, 1) == [TWO_31 - 1];
    assert End(one) == -TWO_31 + 1 && Indices(one) == [-TWO_31] && SpanFault(one).None?;
    assert End(two) == 0 && Indices(two) == [-TWO_31] && SpanFault(two).None?;
  }

  /** The `i32` bound on merged gaps is met: at shift 1 the widest layout has the largest gap of all. */
  lemma LargestGap()
    ensures MergedIndices(Indices(WIDEST), 1) == [-0x4000_0000, 0x4000_0000]
    ensures Encode([-0x4000_0000, 0x4000_0000]) == [BucketSpan(-0x4000_0000, 1), BucketSpan(TWO_31 - 1, 1)]
  {
    WidestLayout();
    var indices := [-TWO_31, TWO_31 - 1];
    assert indices[..1] == [-TWO_31] && [-TWO_31][..0] == [];
    assert Pow2(1) == 2;
    var merged := [-0x4000_0000, 0x4000_0000];
    assert merged[..1] == [-0x4000_0000] && [-0x4000_0000][..0] == [];
  }

  /** For float counts the layout still composes; how the counts associate is left to `addFloat`. */
  lemma ReductionLayoutComposes(side: Side, a: nat, b: nat, addFloat: (F64, F64) -> F64)
    requires ValidLayout(side)
    ensures ReducedSide(ReducedSide(side, a, addFloat), b, addFloat).spans == ReducedSide(side, a + b, addFloat).spans
  {
    MergedIndicesCompose(Indices(side.spans), a, b);
  }

  /** The true merged counts, before they are squeezed into `i64`. */
  ghost function TrueMerged(side: Side, shift: nat): seq<int>
    requires ValidLayout(side) && side.counts == []
  {
    MergedCounts<int>(Indices(side.spans), Absolute(side.deltas), shift, Plus)
  }

  /** No merged count leaves `i64`. */
  ghost predicate MergedCountsFit(side: Side, shift: nat)
    requires ValidLayout(side) && side.counts == []
  {
    forall j | 0 <= j < |TrueMerged(side, shift)| :: InI64(TrueMerged(side, shift)[j])
  }

  /** Decoded again, a reduced integer side holds the true merged counts exactly when each fits `i64`. */
  lemma ReductionExactness(side: Side, shift: nat, addFloat: (F64, F64) -> F64)
    requires ValidLayout(side) && side.counts == []
    ensures Absolute(ReducedSide(side, shift, addFloat).deltas) == Wrapped(TrueMerged(side, shift))
    ensures
      (Absolute(ReducedSide(side, shift, addFloat).deltas) == TrueMerged(side, shift)) <==>
        MergedCountsFit(side, shift)
  {
    var indices, counts := Indices(side.spans), Absolute(side.deltas);
    AbsoluteOfDeltas(MergedCounts<i64>(indices, counts, shift, WrapPlus));
    MergedWraps(indices, counts, shift);
  }

  /** Reducing an accepted integer side whose merged counts fit `i64` keeps its cumulative
      distribution at every coarse bound and its total, and is accepted again. */
  lemma ReductionPreservesMeaning(side: Side, shift: nat, addFloat: (F64, F64) -> F64, k: int)
    requires ValidLayout(side) && side.counts == [] && CountFault(side.deltas).None?
    requires MergedCountsFit(side, shift)
    ensures
      var reduced := ReducedSide(side, shift, addFloat);
      && reduced.BucketLen() == |Indices(reduced.spans)|
      && CumulativeCount(Indices(reduced.spans), Absolute(reduced.deltas), k)
          == CumulativeCount(Indices(side.spans), Absolute(side.deltas), k * Pow2(shift))
      && Sum(Absolute(reduced.deltas)) == Sum(Absolute(side.deltas))
      && SideFault(reduced.spans, reduced.BucketLen(), reduced.deltas).None?
  {
    hide Encode, Indices, MergedCounts, Absolute, Deltas, CumulativeCount;
    var indices, counts := Indices(side.spans), Absolute(side.deltas);
    var merged := MergedCounts<i64>(indices, counts, shift, WrapPlus);
    var exact := TrueMerged(side, shift);
    AbsoluteNonNegative(side.deltas);
    assert AllBetween(exact, 0, Sum(counts)) by { MergedBetweenZeroAndSum(indices, counts, shift); }
    assert merged == exact by { MergedWraps(indices, counts, shift); }
    assert Absolute(Deltas(merged)) == merged by { AbsoluteOfDeltas(merged); }
    MergePreservesMeaning(indices, counts, shift, k);
    MergePreservesTotal(indices, counts, shift);
    DeltasOfNonNegative(merged);
  }

  /** A side whose total fits `i64` can be merged at any shift. */
  lemma SmallTotalFits(side: Side, shift: nat)
    requires ValidLayout(side) && side.counts == [] && CountFault(side.deltas).None?
    requires Sum(Absolute(side.deltas)) < TWO_63
    ensures MergedCountsFit(side, shift)
  {
    AbsoluteNonNegative(side.deltas);
    MergedBetweenZeroAndSum(Indices(side.spans), Absolute(side.deltas), shift);
  }

  /** Observations at or below the upper bound of bucket `k`. */
  ghost function CumulativeAt(side: Side, k: int): int
    requires side.BucketLen() == |Indices(side.spans)| && side.counts == []
  {
    CumulativeCount(Indices(side.spans), Absolute(side.deltas), k)
  }

  /** The coarse side's cumulative counts are the fine side's at every coarse bound, and so is
      its total. */
  ghost predicate SameDistribution(fine: Side, coarse: Side, shift: nat) {
    && fine.BucketLen() == |Indices(fine.spans)| && coarse.BucketLen() == |Indices(coarse.spans)|
    && fine.counts == [] && coarse.counts == []
    && Sum(Absolute(coarse.deltas)) == Sum(Absolute(fine.deltas))
    && forall k :: CumulativeAt(coarse, k) == CumulativeAt(fine, k * Pow2(shift))
  }

  /** Past the last index the cumulative count is the total, before the last it misses the last. */
  lemma {:induction false} CumulativePast(indices: seq<int>, counts: seq<int>, k: int)
    requires |indices| == |counts|
    requires forall i | 0 <= i < |indices| :: indices[i] <= k
    ensures CumulativeCount(indices, counts, k) == Sum(counts)
  {
    if indices != [] {
      CumulativePast(indices[..|indices| - 1], counts[..|counts| - 1], k);
    }
  }

  /** On strictly increasing indices the cumulative counts determine the counts. */
  lemma {:induction false} CumulativeDetermines(indices: seq<int>, a: seq<int>, b: seq<int>)
    requires StrictlyIncreasing(indices) && |indices| == |a| == |b|
    requires forall k :: CumulativeCount(indices, a, k) == CumulativeCount(indices, b, k)
    ensures a == b
  {
    if indices != [] {
      var last := |indices| - 1;
      var init := indices[..last];
      forall k: int
        ensures CumulativeCount(init, a[..last], k) == CumulativeCount(init, b[..last], k)
      {
        var below := if k < indices[last] then k else indices[last] - 1;
        assert CumulativeCount(indices, a, below) == CumulativeCount(indices, b, below);
        if k >= indices[last] {
          CumulativePast(init, a[..last], k);
          CumulativePast(init, a[..last], below);
          CumulativePast(init, b[..last], k);
          CumulativePast(init, b[..last], below);
        }
      }
      CumulativeDetermines(init, a[..last], b[..last]);
      assert CumulativeCount(indices, a, indices[last]) == CumulativeCount(indices, b, indices[last]);
      assert a == a[..last] + [a[last]] && b == b[..last] + [b[last]];
    }
  }

  /** The reduced counts accumulate to the fine ones at every coarse bound exactly when no merged
      count leaves `i64`. */
  lemma MeaningIsKeptExactly(side: Side, shift: nat, addFloat: (F64, F64) -> F64)
    requires ValidLayout(side) && side.counts == []
    ensures SameDistribution(side, ReducedSide(side, shift, addFloat), shift) <==> MergedCountsFit(side, shift)
  {
    hide Encode, Indices, MergedCounts, MergedIndices, Absolute, Deltas, CumulativeCount, ValidLayout;
    var indices, counts := Indices(side.spans), Absolute(side.deltas);
    var reduced := ReducedSide(side, shift, addFloat);
    var merged, exact := MergedIndices(indices, shift), TrueMerged(side, shift);
    LayoutLength(side);
    LayoutLength(reduced);
    ReductionExactness(side, shift, addFloat);
    MergePreservesTotal(indices, counts, shift);
    forall k: int
      ensures CumulativeCount(merged, exact, k) == CumulativeCount(indices, counts, k * Pow2(shift))
    {
      MergePreservesMeaning(indices, counts, shift, k);
    }
    if SameDistribution(side, reduced, shift) {
      forall k: int
        ensures CumulativeCount(merged, Absolute(reduced.deltas), k) == CumulativeCount(merged, exact, k)
      {
        assert CumulativeAt(reduced, k) == CumulativeAt(side, k * Pow2(shift));
      }
      ValidIncreases(side);
      MergedStrictlyIncreasing(indices, shift);
      CumulativeDetermines(merged, Absolute(reduced.deltas), exact);
    }
  }

  lemma LayoutLength(side: Side)
    requires ValidLayout(side)
    ensures |Indices(side.spans)| == side.BucketLen()
  {
  }

  lemma ValidIncreases(side: Side)
    requires ValidLayout(side)
    ensures StrictlyIncreasing(Indices(side.spans))
  {
    ValidSpansLayout(side.spans);
  }

  lemma {:induction false} AbsoluteNonNegative(deltas: seq<i64>)
    requires CountFault(deltas).None?
    ensures forall i | 0 <= i < |deltas| :: Absolute(deltas)[i] >= 0
  {
    if deltas != [] {
      AbsoluteNonNegative(deltas[..|deltas| - 1]);
    }
  }
}
