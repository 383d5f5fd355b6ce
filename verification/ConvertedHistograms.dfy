/** Converted histograms on the wire: they can be encoded, and keep their meaning up to the receiver. */
module ConvertedHistograms {
  import opened Basics
  import opened Model
  import opened BucketLayout
  import opened Rebucketing
  import opened SideReduction
  import opened NativeHistograms
  import opened HistogramConversion
  import opened ResolutionTheorems
  import opened Protobuf
  import opened WireMessages
  import opened WireDecoding

  lemma ExposedIsSized(exposed: Exposed, gauge: bool)
    ensures HistogramSized(Base(exposed, gauge))
  {
  }

  /** Merged spans fit the wire, unless nothing merges and there are 2^32 buckets. */
  lemma ReducedIsSized(side: Side, shift: nat, addFloat: (F64, F64) -> F64)
    requires ValidLayout(side) && GapsFit(MergedIndices(Indices(side.spans), shift))
    requires shift >= 1 || side.BucketLen() < TWO_32
    ensures SpansSized(ReducedSide(side, shift, addFloat).spans)
  {
    hide MergedIndices, Indices, Encode, GapsFit;
    ReducedSpans(side, shift, addFloat);
    if shift >= 1 {
      MergedSpansFit(side.spans, shift);
    } else {
      SideUnmerged(side);
      EncodeFits(Indices(side.spans));
    }
  }

  lemma StepsAreSized(h: Histogram, k: nat, addFloat: (F64, F64) -> F64)
    requires Layouts(h) && k >= 1 && InI32(h.schema - k)
    ensures HistogramSized(Steps(h, k, addFloat))
  {
    hide ValidLayout, MergedIndices, Indices, Encode, ReducedSide, Steps, GapsFit;
    StepsSpansAreOneShot(h, k, addFloat);
    MergedGaps(h.negative, k);
    MergedGaps(h.positive, k);
    ReducedIsSized(h.negative, k, addFloat);
    ReducedIsSized(h.positive, k, addFloat);
  }

  lemma MergedGaps(side: Side, shift: nat)
    requires ValidLayout(side) && shift >= 1
    ensures GapsFit(MergedIndices(Indices(side.spans), shift))
  {
    hide MergedIndices, Indices, GapsFit;
    ValidSpansLayout(side.spans);
    MergedGapsFit(Indices(side.spans), shift);
  }

  /** Fewer than 2^32 buckets on each side. */
  predicate FewBuckets(h: Histogram) {
    h.negative.BucketLen() < TWO_32 && h.positive.BucketLen() < TWO_32
  }

  /** Whether the cap at schema 8, if there is one, still shifts once its shift is masked. */
  predicate CapShifts(h: Histogram) {
    h.schema > SCHEMA_MAX ==> (h.schema - SCHEMA_MAX) % 64 != 0
  }

  lemma FaithfulCapShifts(h: Histogram)
    requires CapIsFaithful(h)
    ensures CapShifts(h)
  {
  }

  lemma CappedIsSized(h: Histogram, addFloat: (F64, F64) -> F64)
    requires Layouts(h) && HistogramSized(h) && (CapShifts(h) || FewBuckets(h))
    requires h.schema > SCHEMA_MAX ==> Fits(h, SCHEMA_MAX)
    ensures HistogramSized(Capped(h, addFloat))
  {
    hide ValidLayout, MergedIndices, Indices, ReducedSide, GapsFit, SpansSized;
    if h.schema > SCHEMA_MAX {
      ReducedIsSized(h.negative, (h.schema - SCHEMA_MAX) % 64, addFloat);
      ReducedIsSized(h.positive, (h.schema - SCHEMA_MAX) % 64, addFloat);
    }
  }

  /** Whatever the conversion returns can be encoded: every span offset fits `sint32` and every
      length `uint32`. Only a cap that masks its shift to 0 could leave a longer span. */
  lemma ConvertedIsSized(
    exposed: Exposed, gauge: bool, bucketLimit: nat, addFloat: (F64, F64) -> F64, result: Histogram)
    requires Converted(Base(exposed, gauge), bucketLimit, addFloat, Ok(result))
    requires CapShifts(Base(exposed, gauge)) || FewBuckets(Base(exposed, gauge))
    ensures HistogramSized(result)
  {
    hide Base, ValidLayout, HistogramSized, Fits, Steps, Reduced, BucketsAtSchema;
    var h := Base(exposed, gauge);
    var capped := Capped(h, addFloat);
    ExposedIsSized(exposed, gauge);
    CappedIsSized(h, addFloat);
    if capped.schema - result.schema >= 1 {
      StepsAreSized(capped, capped.schema - result.schema, addFloat);
    } else {
      NoStep(capped, addFloat);
    }
  }

  lemma AcceptedSides(exposed: Exposed, gauge: bool)
    requires Rejection(Base(exposed, gauge)).None? && IsInteger(Base(exposed, gauge))
    ensures AcceptedSide(Base(exposed, gauge).negative) && AcceptedSide(Base(exposed, gauge).positive)
  {
    hide IsFloat, CountFault, SpanFault, Indices;
  }

  /** From exposition to receiver: an accepted integer histogram that the conversion does not fail
      on is encoded, decoded again, and then has the exposed cumulative distribution at every
      bound of its schema, side by side, exactly when no merged count leaves `i64`. */
  lemma ReceivedMeaning(
    exposed: Exposed, gauge: bool, bucketLimit: nat, addFloat: (F64, F64) -> F64, result: Histogram, timestamp: i64)
    requires Rejection(Base(exposed, gauge)).None?
    requires IsInteger(Base(exposed, gauge)) && CapIsFaithful(Base(exposed, gauge))
    requires Converted(Base(exposed, gauge), bucketLimit, addFloat, Ok(result))
    requires HistogramSized(result) ==> |Serialize(HistogramFields(result, timestamp))| < TWO_64
    ensures HistogramSized(result)
    ensures
      var h := Base(exposed, gauge);
      var received := DecodeHistogram(Serialize(HistogramFields(result, timestamp)));
      && received.Some? && received.value.schema <= h.schema
      && received.value.timestamp == timestamp
      && var shift := h.schema - received.value.schema;
      && (SameDistribution(h.negative, received.value.negative, shift) <==> MergedCountsFit(h.negative, shift))
      && (SameDistribution(h.positive, received.value.positive, shift) <==> MergedCountsFit(h.positive, shift))
  {
    hide Base, SameDistribution, MergedCountsFit, Converted, AcceptedSide, CapIsFaithful, CapShifts, HistogramSized,
      HistogramFields, Serialize, DecodeHistogram, IsInteger, Rejection, FaultOf;
    var h := Base(exposed, gauge);
    FaithfulCapShifts(h);
    ConvertedIsSized(exposed, gauge, bucketLimit, addFloat, result);
    AcceptedLayouts(exposed, gauge);
    AcceptedSides(exposed, gauge);
    ConversionPreservesMeaning(h, bucketLimit, addFloat, result);
    HistogramRoundTrip(result, timestamp);
  }
}
