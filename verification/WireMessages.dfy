/**
 The remote-write messages (`src/model.rs`): which fields each value is written
 as, how long the encoder says they are, and how a receiver reads them back.
 Series, labels and histograms have the same fields in remote-write 1.0 and 2.0
 except where noted.
 */
module WireMessages {
  import opened Basics
  import opened Model
  import opened WireScalars
  import opened Protobuf

  // ----- fields written

  function When(present: bool, field: Field): (fields: seq<Field>)
    ensures |fields| <= 1
  {
    if present then [field] else []
  }

  /** Proto3 skips a string that is empty. */
  function TextFields(num: nat, text: Text): seq<Field> {
    When(text != [], BytesField(num, text))
  }

  function LabelFields(pair: Label): seq<Field> {
    TextFields(1, pair.name) + TextFields(2, pair.value)
  }

  function SampleFields(sample: Sample): seq<Field> {
    When(!IsZero(sample.value), DoubleField(1, sample.value))
      + When(sample.timestamp != 0, VarintField(2, Int64Bits(sample.timestamp)))
  }

  /** The span's offset and length fit the wire's `sint32` and `uint32`. */
  predicate SpanSized(span: BucketSpan) {
    InI32(span.offset) && span.length < TWO_32
  }

  function SpanFields(span: BucketSpan): seq<Field>
    requires SpanSized(span)
  {
    When(span.offset != 0, VarintField(1, ZigZag(span.offset)))
      + When(span.length != 0, VarintField(2, span.length))
  }

  predicate SpansSized(spans: seq<BucketSpan>) {
    forall i | 0 <= i < |spans| :: SpanSized(spans[i])
  }

  function SpansFields(num: nat, spans: seq<BucketSpan>): seq<Field>
    requires SpansSized(spans)
  {
    if spans == [] then []
    else [BytesField(num, Serialize(SpanFields(spans[0])))] + SpansFields(num, spans[1..])
  }

  function DeltasFields(num: nat, deltas: seq<i64>): seq<Field> {
    When(deltas != [], BytesField(num, PackedZigZag(deltas)))
  }

  function CountsFields(num: nat, counts: seq<F64>): seq<Field> {
    When(counts != [], BytesField(num, PackedDoubles(counts)))
  }

  /** A count is a oneof: written whichever variant is set, zero included. */
  function CountField(intNum: nat, floatNum: nat, count: HistogramCount): Field {
    match count
    case CountInt(n) => VarintField(intNum, n)
    case CountFloat(f) => DoubleField(floatNum, f)
  }

  /** Spans, deltas and counts of one side, at consecutive field numbers. */
  function SideFields(num: nat, side: Side): seq<Field>
    requires SpansSized(side.spans)
  {
    SpansFields(num, side.spans) + (DeltasFields(num + 1, side.deltas) + CountsFields(num + 2, side.counts))
  }

  function ResetHintValue(hint: ResetHint): nat {
    match hint
    case Unknown => 0
    case Yes => 1
    case No => 2
    case Gauge => 3
  }

  function HeadFields(h: Histogram): seq<Field> {
    [CountField(1, 2, h.count)]
      + (When(!IsZero(h.sum), DoubleField(3, h.sum))
      + (When(h.schema != 0, VarintField(4, ZigZag(h.schema)))
      + (When(!IsZero(h.zeroThreshold), DoubleField(5, h.zeroThreshold))
      + [CountField(6, 7, h.zeroCount)])))
  }

  function TailFields(h: Histogram, timestamp: i64): seq<Field> {
    When(h.resetHint != Unknown, VarintField(14, ResetHintValue(h.resetHint)))
      + When(timestamp != 0, VarintField(15, Int64Bits(timestamp)))
  }

  predicate HistogramSized(h: Histogram) {
    SpansSized(h.negative.spans) && SpansSized(h.positive.spans)
  }

  function HistogramFields(h: Histogram, timestamp: i64): seq<Field>
    requires HistogramSized(h)
  {
    HeadFields(h) + (SideFields(8, h.negative) + (SideFields(11, h.positive) + TailFields(h, timestamp)))
  }

  predicate SeriesSized(series: TimeSeries) {
    series.histogram.Some? ==> HistogramSized(series.histogram.value)
  }

  /** Body of the series' one value message. */
  function ValueBytes(series: TimeSeries): seq<byte>
    requires SeriesSized(series)
  {
    match series.histogram
    case Some(h) => Serialize(HistogramFields(h, series.sample.timestamp))
    case None => Serialize(SampleFields(series.sample))
  }

  /** The value message as a repeated field of one. */
  function ValueField(sampleNum: nat, histogramNum: nat, series: TimeSeries): Field
    requires SeriesSized(series)
  {
    BytesField(if series.histogram.Some? then histogramNum else sampleNum, ValueBytes(series))
  }

  // ----- lengths computed before writing

  /** Size of a key byte, a length and a payload of `len` bytes. */
  function FramedLen(len: nat): nat {
    1 + VarintLen(len % TWO_64) + len
  }

  lemma FramedField(num: nat, payload: seq<byte>)
    requires 1 <= num <= 15
    ensures |FieldBytes(BytesField(num, payload))| == FramedLen(|payload|)
  {
  }

  lemma LenOfAppend(a: seq<Field>, b: seq<Field>)
    ensures |Serialize(a + b)| == |Serialize(a)| + |Serialize(b)|
  {
    SerializeAppend(a, b);
  }

  function StringFieldLen(text: Text): (len: nat)
    ensures len == |Serialize(TextFields(1, text))| == |Serialize(TextFields(2, text))|
  {
    FramedField(1, text);
    FramedField(2, text);
    if text == [] then 0 else 1 + VarintLen(|text| % TWO_64) + |text|
  }

  function LabelWireLen(pair: Label): (len: nat)
    ensures len == |Serialize(LabelFields(pair))|
  {
    LenOfAppend(TextFields(1, pair.name), TextFields(2, pair.value));
    StringFieldLen(pair.name) + StringFieldLen(pair.value)
  }

  function SampleWireLen(sample: Sample): (len: nat)
    ensures len == |Serialize(SampleFields(sample))|
  {
    LenOfAppend(
      When(!IsZero(sample.value), DoubleField(1, sample.value)),
      When(sample.timestamp != 0, VarintField(2, Int64Bits(sample.timestamp))));
    (if !IsZero(sample.value) then 9 else 0)
      + (if sample.timestamp != 0 then 1 + VarintLen(Int64Bits(sample.timestamp)) else 0)
  }

  function SpanWireLen(span: BucketSpan): (len: nat)
    requires SpanSized(span)
    ensures len == |Serialize(SpanFields(span))|
  {
    LenOfAppend(
      When(span.offset != 0, VarintField(1, ZigZag(span.offset))),
      When(span.length != 0, VarintField(2, span.length)));
    (if span.offset != 0 then 1 + VarintLen(ZigZag(span.offset)) else 0)
      + (if span.length != 0 then 1 + VarintLen(span.length) else 0)
  }

  function SpansLen(spans: seq<BucketSpan>): (len: nat)
    requires SpansSized(spans)
    ensures forall num | 1 <= num <= 15 :: len == |Serialize(SpansFields(num, spans))|
  {
    if spans == [] then 0 else FramedLen(SpanWireLen(spans[0])) + SpansLen(spans[1..])
  }

  function DeltasPayloadLen(deltas: seq<i64>): (len: nat)
    ensures len == |PackedZigZag(deltas)|
  {
    if deltas == [] then 0 else VarintLen(ZigZag(deltas[0])) + DeltasPayloadLen(deltas[1..])
  }

  function PackedFieldLen(payload: nat): nat {
    if payload == 0 then 0 else FramedLen(payload)
  }

  function CountWireLen(count: HistogramCount): nat {
    match count
    case CountInt(n) => 1 + VarintLen(n)
    case CountFloat(_) => 9
  }

  lemma PackedFields(num: nat, side: Side)
    requires 1 <= num <= 13
    ensures |Serialize(DeltasFields(num, side.deltas))| == PackedFieldLen(DeltasPayloadLen(side.deltas))
    ensures |Serialize(CountsFields(num, side.counts))| == PackedFieldLen(|side.counts| * 8)
  {
    FramedField(num, PackedZigZag(side.deltas));
    FramedField(num, PackedDoubles(side.counts));
  }

  function SideLen(side: Side): (len: nat)
    requires SpansSized(side.spans)
    ensures forall num | 1 <= num <= 11 :: len == |Serialize(SideFields(num, side))|
  {
    forall num | 1 <= num <= 11
      ensures SideLenOf(side) == |Serialize(SideFields(num, side))|
    {
      SideLenIs(num, side);
    }
    SideLenOf(side)
  }

  function SideLenOf(side: Side): nat
    requires SpansSized(side.spans)
  {
    SpansLen(side.spans) + PackedFieldLen(DeltasPayloadLen(side.deltas)) + PackedFieldLen(|side.counts| * 8)
  }

  lemma SideLenIs(num: nat, side: Side)
    requires 1 <= num <= 11 && SpansSized(side.spans)
    ensures SideLenOf(side) == |Serialize(SideFields(num, side))|
  {
    hide SpansSized, SpansFields, DeltasFields, CountsFields, Serialize, PackedFieldLen, DeltasPayloadLen, SpansLen;
    PackedFields(num + 1, side);
    PackedFields(num + 2, side);
    LenOfAppend(DeltasFields(num + 1, side.deltas), CountsFields(num + 2, side.counts));
    LenOfAppend(
      SpansFields(num, side.spans), DeltasFields(num + 1, side.deltas) + CountsFields(num + 2, side.counts));
  }

  lemma CountLen(intNum: nat, floatNum: nat, count: HistogramCount)
    requires 1 <= intNum <= 15 && 1 <= floatNum <= 15
    ensures CountWireLen(count) == |Serialize([CountField(intNum, floatNum, count)])|
  {
  }

  function HeadLen(h: Histogram): nat {
    CountWireLen(h.count) + CountWireLen(h.zeroCount)
      + (if !IsZero(h.sum) then 9 else 0)
      + (if h.schema != 0 then 1 + VarintLen(ZigZag(h.schema)) else 0)
      + (if !IsZero(h.zeroThreshold) then 9 else 0)
  }

  lemma HeadLenIs(h: Histogram)
    ensures HeadLen(h) == |Serialize(HeadFields(h))|
  {
    hide CountWireLen, CountField, IsZero, ZigZag;
    var sum := When(!IsZero(h.sum), DoubleField(3, h.sum));
    var schema := When(h.schema != 0, VarintField(4, ZigZag(h.schema)));
    var threshold := When(!IsZero(h.zeroThreshold), DoubleField(5, h.zeroThreshold));
    var zeroCount := [CountField(6, 7, h.zeroCount)];
    CountLen(1, 2, h.count);
    CountLen(6, 7, h.zeroCount);
    assert |Serialize(sum)| == (if !IsZero(h.sum) then 9 else 0);
    assert |Serialize(schema)| == (if h.schema != 0 then 1 + VarintLen(ZigZag(h.schema)) else 0);
    assert |Serialize(threshold)| == (if !IsZero(h.zeroThreshold) then 9 else 0);
    hide Serialize, When;
    LenOfAppend(threshold, zeroCount);
    LenOfAppend(schema, threshold + zeroCount);
    LenOfAppend(sum, schema + (threshold + zeroCount));
    LenOfAppend([CountField(1, 2, h.count)], sum + (schema + (threshold + zeroCount)));
  }

  function TailLen(h: Histogram, timestamp: i64): (len: nat)
    ensures len == |Serialize(TailFields(h, timestamp))|
  {
    LenOfAppend(
      When(h.resetHint != Unknown, VarintField(14, ResetHintValue(h.resetHint))),
      When(timestamp != 0, VarintField(15, Int64Bits(timestamp))));
    (if h.resetHint != Unknown then 2 else 0) + (if timestamp != 0 then 1 + VarintLen(Int64Bits(timestamp)) else 0)
  }

  /** Encoded size of the histogram message body carrying `timestamp`. */
  function HistogramWireLen(h: Histogram, timestamp: i64): (len: nat)
    requires HistogramSized(h)
    ensures len == |Serialize(HistogramFields(h, timestamp))|
  {
    HistogramLenIs(h, timestamp);
    HeadLen(h) + SideLen(h.negative) + SideLen(h.positive) + TailLen(h, timestamp)
  }

  lemma HistogramLenIs(h: Histogram, timestamp: i64)
    requires HistogramSized(h)
    ensures HeadLen(h) + SideLen(h.negative) + SideLen(h.positive) + TailLen(h, timestamp)
      == |Serialize(HistogramFields(h, timestamp))|
  {
    hide Serialize, HeadLen, TailLen, SideLen, HeadFields, SideFields, TailFields;
    HeadLenIs(h);
    var tail := TailFields(h, timestamp);
    var sides := SideFields(11, h.positive) + tail;
    LenOfAppend(SideFields(11, h.positive), tail);
    LenOfAppend(SideFields(8, h.negative), sides);
    LenOfAppend(HeadFields(h), SideFields(8, h.negative) + sides);
  }

  function ValueWireLen(series: TimeSeries): (len: nat)
    requires SeriesSized(series)
    ensures len == |ValueBytes(series)|
  {
    match series.histogram
    case Some(h) => HistogramWireLen(h, series.sample.timestamp)
    case None => SampleWireLen(series.sample)
  }
}
