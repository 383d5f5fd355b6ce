/**
 The remote-write messages byte by byte: the key of every field as `src/model.rs:337-349`,
 `src/model.rs:464-600` and `src/remote_write.rs:527-560` write it, and the scalars behind the keys.
 */
module WireBytes {
  import opened Basics
  import opened Model
  import opened WireScalars
  import opened Protobuf
  import opened WireMessages
  import opened WriteRequests
  import opened SymbolTable
  import opened WriteRequestsV2

  // ----- scalars

  /** The value base-128 bytes stand for: seven bits each, the least significant first. */
  function Base128(bytes: seq<byte>): nat {
    if bytes == [] then 0 else bytes[0] % 128 + 128 * Base128(bytes[1..])
  }

  /** Varints are base 128 with the high bit set on all bytes but the last, which is not zero but for
      the value zero. */
  lemma {:induction false} VarintExactly(value: nat)
    ensures
      var bytes := Varint(value);
      && Base128(bytes) == value
      && (forall i | 0 <= i < |bytes| - 1 :: bytes[i] >= 128)
      && bytes[|bytes| - 1] < 128 && (|bytes| > 1 ==> bytes[|bytes| - 1] > 0)
  {
    if value >= 128 {
      VarintExactly(value / 128);
      assert Varint(value)[1..] == Varint(value / 128);
    } else {
      assert Varint(value)[1..] == [];
    }
  }

  /** The value bytes stand for, the least significant first. */
  function Base256(bytes: seq<byte>): nat {
    if bytes == [] then 0 else bytes[0] + 256 * Base256(bytes[1..])
  }

  lemma {:induction false} Base256Is(bytes: seq<byte>)
    ensures Base256(bytes) == FromLittleEndian(bytes)
  {
    if bytes != [] {
      Base256Is(bytes[1..]);
    }
  }

  /** A double is its bit pattern in eight bytes, the least significant first. */
  lemma DoubleExactly(bits: F64)
    ensures |DoubleBytes(bits)| == 8 && Base256(DoubleBytes(bits)) == bits
  {
    hide LittleEndian, FromLittleEndian, Pow2;
    Pow2Values();
    LittleEndianRoundTrip(bits, 8);
    Base256Is(DoubleBytes(bits));
  }

  // ----- fields

  /** A key byte and a varint, a double, or a length and as many bytes. */
  lemma FieldExactly(num: nat, value: u64, bits: F64, payload: seq<byte>)
    requires 1 <= num <= 15
    ensures FieldBytes(VarintField(num, value)) == [8 * num] + Varint(value)
    ensures FieldBytes(DoubleField(num, bits)) == [8 * num + 1] + DoubleBytes(bits)
    ensures FieldBytes(BytesField(num, payload)) == [8 * num + 2] + Framed(payload)
  {
  }

  /** A length and the bytes. */
  function Framed(payload: seq<byte>): seq<byte> {
    Varint(|payload| % TWO_64) + payload
  }

  lemma WhenExactly(present: bool, field: Field)
    ensures Serialize(When(present, field)) == if present then FieldBytes(field) else []
  {
    SerializeOne(field);
  }

  // ----- messages

  function TextOnWire(key: byte, text: Text): seq<byte> {
    if text == [] then [] else [key] + Framed(text)
  }

  lemma LabelExactly(pair: Label)
    ensures Serialize(LabelFields(pair)) == TextOnWire(0x0a, pair.name) + TextOnWire(0x12, pair.value)
  {
    hide Serialize, FieldBytes, When;
    SerializeAppend(TextFields(1, pair.name), TextFields(2, pair.value));
    WhenExactly(pair.name != [], BytesField(1, pair.name));
    WhenExactly(pair.value != [], BytesField(2, pair.value));
    FieldExactly(1, 0, 0, pair.name);
    FieldExactly(2, 0, 0, pair.value);
  }

  /** `0.0` and `-0.0` are not written. */
  function DoubleOnWire(key: byte, x: F64): seq<byte> {
    if x == 0 || x == 0x8000_0000_0000_0000 then [] else [key] + DoubleBytes(x)
  }

  function NumberOnWire(key: byte, present: bool, value: u64): seq<byte> {
    if present then [key] + Varint(value) else []
  }

  lemma DoubleWhen(num: nat, x: F64)
    requires 1 <= num <= 15
    ensures Serialize(When(!IsZero(x), DoubleField(num, x))) == DoubleOnWire(8 * num + 1, x)
  {
    hide Serialize, FieldBytes, When, DoubleBytes;
    WhenExactly(!IsZero(x), DoubleField(num, x));
    FieldExactly(num, 0, x, []);
  }

  lemma NumberWhen(num: nat, present: bool, value: u64)
    requires 1 <= num <= 15
    ensures Serialize(When(present, VarintField(num, value))) == NumberOnWire(8 * num, present, value)
  {
    hide Serialize, FieldBytes, When, Varint;
    WhenExactly(present, VarintField(num, value));
    FieldExactly(num, value, 0, []);
  }

  function SampleOnWire(sample: Sample): seq<byte> {
    DoubleOnWire(0x09, sample.value) + NumberOnWire(0x10, sample.timestamp != 0, Int64Bits(sample.timestamp))
  }

  lemma SampleExactly(sample: Sample)
    ensures Serialize(SampleFields(sample)) == SampleOnWire(sample)
  {
    hide Serialize, When, DoubleOnWire, NumberOnWire;
    var value := When(!IsZero(sample.value), DoubleField(1, sample.value));
    var timestamp := When(sample.timestamp != 0, VarintField(2, Int64Bits(sample.timestamp)));
    SerializeAppend(value, timestamp);
    DoubleWhen(1, sample.value);
    NumberWhen(2, sample.timestamp != 0, Int64Bits(sample.timestamp));
  }

  function SpanOnWire(span: BucketSpan): seq<byte>
    requires SpanSized(span)
  {
    NumberOnWire(0x08, span.offset != 0, if span.offset >= 0 then 2 * span.offset else -2 * span.offset - 1)
      + NumberOnWire(0x10, span.length != 0, span.length)
  }

  lemma SpanExactly(span: BucketSpan)
    requires SpanSized(span)
    ensures Serialize(SpanFields(span)) == SpanOnWire(span)
  {
    hide Serialize, When, NumberOnWire;
    var offset := When(span.offset != 0, VarintField(1, ZigZag(span.offset)));
    var length := When(span.length != 0, VarintField(2, span.length));
    SerializeAppend(offset, length);
    NumberWhen(1, span.offset != 0, ZigZag(span.offset));
    NumberWhen(2, span.length != 0, span.length);
  }

  function SpansOnWire(key: byte, spans: seq<BucketSpan>): seq<byte>
    requires SpansSized(spans)
  {
    if spans == [] then [] else [key] + Framed(SpanOnWire(spans[0])) + SpansOnWire(key, spans[1..])
  }

  lemma {:induction false} SpansExactly(num: nat, spans: seq<BucketSpan>)
    requires 1 <= num <= 15 && SpansSized(spans)
    ensures Serialize(SpansFields(num, spans)) == SpansOnWire(8 * num + 2, spans)
    decreases |spans|
  {
    hide FieldBytes, SpanFields, SpanOnWire, SpanSized;
    if spans != [] {
      var payload := Serialize(SpanFields(spans[0]));
      SpanExactly(spans[0]);
      SpansExactly(num, spans[1..]);
      FieldExactly(num, 0, 0, payload);
      SerializeHead(BytesField(num, payload), SpansFields(num, spans[1..]));
    }
  }

  lemma SerializeHead(field: Field, rest: seq<Field>)
    ensures Serialize([field] + rest) == FieldBytes(field) + Serialize(rest)
  {
    hide FieldBytes;
    assert ([field] + rest)[1..] == rest;
  }

  function DeltasOnWire(key: byte, deltas: seq<i64>): seq<byte> {
    if deltas == [] then [] else [key] + Framed(PackedZigZag(deltas))
  }

  function CountsOnWire(key: byte, counts: seq<F64>): seq<byte> {
    if counts == [] then [] else [key] + Framed(PackedDoubles(counts))
  }

  function SideOnWire(spans: byte, deltas: byte, counts: byte, side: Side): seq<byte>
    requires SpansSized(side.spans)
  {
    SpansOnWire(spans, side.spans) + (DeltasOnWire(deltas, side.deltas) + CountsOnWire(counts, side.counts))
  }

  lemma PackedExactly(num: nat, side: Side)
    requires 1 <= num <= 14
    ensures Serialize(DeltasFields(num, side.deltas)) == DeltasOnWire(8 * num + 2, side.deltas)
    ensures Serialize(CountsFields(num, side.counts)) == CountsOnWire(8 * num + 2, side.counts)
  {
    hide Serialize, FieldBytes, PackedZigZag, PackedDoubles, When, Framed;
    WhenExactly(side.deltas != [], BytesField(num, PackedZigZag(side.deltas)));
    WhenExactly(side.counts != [], BytesField(num, PackedDoubles(side.counts)));
    FieldExactly(num, 0, 0, PackedZigZag(side.deltas));
    FieldExactly(num, 0, 0, PackedDoubles(side.counts));
  }

  lemma SideExactly(num: nat, side: Side)
    requires 1 <= num <= 12 && SpansSized(side.spans)
    ensures Serialize(SideFields(num, side)) == SideOnWire(8 * num + 2, 8 * num + 10, 8 * num + 18, side)
  {
    hide Serialize, SpansFields, SpansOnWire, DeltasFields, CountsFields, DeltasOnWire, CountsOnWire, SpansSized;
    var deltas, counts := DeltasFields(num + 1, side.deltas), CountsFields(num + 2, side.counts);
    SerializeAppend(SpansFields(num, side.spans), deltas + counts);
    SerializeAppend(deltas, counts);
    SpansExactly(num, side.spans);
    PackedExactly(num + 1, side);
    PackedExactly(num + 2, side);
  }

  function CountOnWire(intKey: byte, floatKey: byte, count: HistogramCount): seq<byte> {
    match count
    case CountInt(n) => [intKey] + Varint(n)
    case CountFloat(f) => [floatKey] + DoubleBytes(f)
  }

  lemma CountExactly(intNum: nat, floatNum: nat, count: HistogramCount)
    requires 1 <= intNum <= 15 && 1 <= floatNum <= 15
    ensures Serialize([CountField(intNum, floatNum, count)]) == CountOnWire(8 * intNum, 8 * floatNum + 1, count)
  {
    hide Serialize, FieldBytes, Varint, DoubleBytes;
    SerializeOne(CountField(intNum, floatNum, count));
    match count
    case CountInt(n) => FieldExactly(intNum, n, 0, []);
    case CountFloat(f) => FieldExactly(floatNum, 0, f, []);
  }

  function HeadOnWire(h: Histogram): seq<byte> {
    CountOnWire(0x08, 0x11, h.count)
      + (DoubleOnWire(0x19, h.sum)
      + (NumberOnWire(0x20, h.schema != 0, if h.schema >= 0 then 2 * h.schema else -2 * h.schema - 1)
      + (DoubleOnWire(0x29, h.zeroThreshold)
      + CountOnWire(0x30, 0x39, h.zeroCount))))
  }

  lemma HeadExactly(h: Histogram)
    ensures Serialize(HeadFields(h)) == HeadOnWire(h)
  {
    hide Serialize, When, DoubleOnWire, NumberOnWire, CountOnWire, CountField, IsZero, ZigZag;
    var count, zeroCount := [CountField(1, 2, h.count)], [CountField(6, 7, h.zeroCount)];
    var sum := When(!IsZero(h.sum), DoubleField(3, h.sum));
    var schema := When(h.schema != 0, VarintField(4, ZigZag(h.schema)));
    var threshold := When(!IsZero(h.zeroThreshold), DoubleField(5, h.zeroThreshold));
    CountExactly(1, 2, h.count);
    DoubleWhen(3, h.sum);
    NumberWhen(4, h.schema != 0, ZigZag(h.schema));
    DoubleWhen(5, h.zeroThreshold);
    CountExactly(6, 7, h.zeroCount);
    SerializeAppend(threshold, zeroCount);
    SerializeAppend(schema, threshold + zeroCount);
    SerializeAppend(sum, schema + (threshold + zeroCount));
    SerializeAppend(count, sum + (schema + (threshold + zeroCount)));
  }

  function HistogramOnWire(h: Histogram, timestamp: i64): seq<byte>
    requires HistogramSized(h)
  {
    HeadOnWire(h)
      + (SideOnWire(0x42, 0x4a, 0x52, h.negative)
      + (SideOnWire(0x5a, 0x62, 0x6a, h.positive)
      + (NumberOnWire(0x70, h.resetHint != Unknown,
           match h.resetHint case Unknown => 0 case Yes => 1 case No => 2 case Gauge => 3)
      + NumberOnWire(0x78, timestamp != 0, Int64Bits(timestamp)))))
  }

  /** Every field of a histogram under its key, in order. */
  lemma HistogramExactly(h: Histogram, timestamp: i64)
    requires HistogramSized(h)
    ensures Serialize(HistogramFields(h, timestamp)) == HistogramOnWire(h, timestamp)
  {
    hide Serialize, HeadFields, HeadOnWire, SideFields, SideOnWire, When, NumberOnWire, SpansSized;
    var hint := When(h.resetHint != Unknown, VarintField(14, ResetHintValue(h.resetHint)));
    var time := When(timestamp != 0, VarintField(15, Int64Bits(timestamp)));
    HeadExactly(h);
    SideExactly(8, h.negative);
    SideExactly(11, h.positive);
    NumberWhen(14, h.resetHint != Unknown, ResetHintValue(h.resetHint));
    NumberWhen(15, timestamp != 0, Int64Bits(timestamp));
    SerializeAppend(hint, time);
    SerializeAppend(SideFields(11, h.positive), hint + time);
    SerializeAppend(SideFields(8, h.negative), SideFields(11, h.positive) + (hint + time));
    SerializeAppend(HeadFields(h), SideFields(8, h.negative) + (SideFields(11, h.positive) + (hint + time)));
  }

  // ----- series and requests

  function ValueOnWire(sampleKey: byte, histogramKey: byte, series: TimeSeries): seq<byte>
    requires SeriesSized(series)
  {
    match series.histogram
    case Some(h) => [histogramKey] + Framed(HistogramOnWire(h, series.sample.timestamp))
    case None => [sampleKey] + Framed(SampleOnWire(series.sample))
  }

  lemma ValueExactly(sampleNum: nat, histogramNum: nat, series: TimeSeries)
    requires 1 <= sampleNum <= 15 && 1 <= histogramNum <= 15 && SeriesSized(series)
    ensures Serialize([ValueField(sampleNum, histogramNum, series)])
      == ValueOnWire(8 * sampleNum + 2, 8 * histogramNum + 2, series)
  {
    hide Serialize, FieldBytes, HistogramFields, HistogramOnWire, SampleFields, SampleOnWire, HistogramSized;
    SerializeOne(ValueField(sampleNum, histogramNum, series));
    match series.histogram
    case Some(h) =>
      HistogramExactly(h, series.sample.timestamp);
      FieldExactly(histogramNum, 0, 0, HistogramOnWire(h, series.sample.timestamp));
    case None =>
      SampleExactly(series.sample);
      FieldExactly(sampleNum, 0, 0, SampleOnWire(series.sample));
  }

  function LabelsOnWire(labels: seq<Label>): seq<byte> {
    if labels == [] then []
    else
      [0x0a] + Framed(TextOnWire(0x0a, labels[0].name) + TextOnWire(0x12, labels[0].value)) + LabelsOnWire(labels[1..])
  }

  lemma {:induction false} LabelsExactly(labels: seq<Label>)
    ensures Serialize(LabelsFields(labels)) == LabelsOnWire(labels)
    decreases |labels|
  {
    hide FieldBytes, LabelFields, TextOnWire;
    if labels != [] {
      var payload := Serialize(LabelFields(labels[0]));
      LabelExactly(labels[0]);
      LabelsExactly(labels[1..]);
      FieldExactly(1, 0, 0, payload);
      SerializeHead(BytesField(1, payload), LabelsFields(labels[1..]));
    }
  }

  /** A remote-write 1.0 request, key by key. */
  function RequestOnWire(batch: seq<TimeSeries>): seq<byte>
    requires BatchSized(batch)
  {
    if batch == [] then []
    else [0x0a] + Framed(LabelsOnWire(batch[0].labels) + ValueOnWire(0x12, 0x22, batch[0])) + RequestOnWire(batch[1..])
  }

  lemma {:induction false} RequestExactly(batch: seq<TimeSeries>)
    requires BatchSized(batch)
    ensures RequestBytes(batch) == RequestOnWire(batch)
    decreases |batch|
  {
    hide FieldBytes, LabelsFields, LabelsOnWire, ValueField, ValueOnWire, SeriesSized;
    if batch != [] {
      var payload := Serialize(SeriesFields(batch[0]));
      SerializeAppend(LabelsFields(batch[0].labels), [ValueField(2, 4, batch[0])]);
      LabelsExactly(batch[0].labels);
      ValueExactly(2, 4, batch[0]);
      RequestExactly(batch[1..]);
      FieldExactly(1, 0, 0, payload);
      SerializeHead(BytesField(1, payload), RequestFields(batch[1..]));
    }
  }

  function SymbolsOnWire(symbols: seq<Text>): seq<byte> {
    if symbols == [] then [] else [0x22] + Framed(symbols[0]) + SymbolsOnWire(symbols[1..])
  }

  lemma {:induction false} SymbolsExactly(symbols: seq<Text>)
    ensures Serialize(SymbolFields(symbols)) == SymbolsOnWire(symbols)
    decreases |symbols|
  {
    hide FieldBytes;
    if symbols != [] {
      SymbolsExactly(symbols[1..]);
      FieldExactly(4, 0, 0, symbols[0]);
      SerializeHead(BytesField(4, symbols[0]), SymbolFields(symbols[1..]));
    }
  }

  function SeriesV2OnWire(refs: seq<u32>, series: TimeSeries): seq<byte>
    requires SeriesSized(series)
  {
    (if refs == [] then [] else [0x0a] + Framed(PackedVarints(refs))) + ValueOnWire(0x12, 0x1a, series)
  }

  lemma SeriesV2Exactly(refs: seq<u32>, series: TimeSeries)
    requires SeriesSized(series)
    ensures Serialize(SeriesV2Fields(refs, series)) == SeriesV2OnWire(refs, series)
  {
    hide Serialize, FieldBytes, When, Framed, ValueField, ValueOnWire, SeriesSized, PackedVarints;
    var refField := BytesField(1, PackedVarints(refs));
    SerializeAppend(When(refs != [], refField), [ValueField(2, 3, series)]);
    WhenExactly(refs != [], refField);
    FieldExactly(1, 0, 0, PackedVarints(refs));
    ValueExactly(2, 3, series);
  }

  function SeriesListOnWire(batch: seq<TimeSeries>, refs: seq<u32>): seq<byte>
    requires BatchSized(batch) && |refs| == |BatchTexts(batch)|
  {
    if batch == [] then []
    else
      var n := 2 * |batch[0].labels|;
      [0x2a] + Framed(SeriesV2OnWire(refs[..n], batch[0])) + SeriesListOnWire(batch[1..], refs[n..])
  }

  lemma {:induction false} SeriesListExactly(batch: seq<TimeSeries>, refs: seq<u32>)
    requires BatchSized(batch) && |refs| == |BatchTexts(batch)|
    ensures Serialize(SeriesListFields(batch, refs)) == SeriesListOnWire(batch, refs)
    decreases |batch|
  {
    if batch == [] {
      assert SeriesListFields(batch, refs) == [];
    } else {
      hide Serialize, FieldBytes, SeriesV2Fields, SeriesV2OnWire, SeriesSized, Framed, Texts;
      var n := 2 * |batch[0].labels|;
      var payload := Serialize(SeriesV2Fields(refs[..n], batch[0]));
      SeriesV2Exactly(refs[..n], batch[0]);
      SeriesListExactly(batch[1..], refs[n..]);
      FieldExactly(5, 0, 0, payload);
      SerializeHead(BytesField(5, payload), SeriesListFields(batch[1..], refs[n..]));
    }
  }

  /** A remote-write 2.0 request, key by key: the symbols, then the series. */
  lemma RequestV2Exactly(batch: seq<TimeSeries>)
    requires BatchSized(batch)
    ensures
      var (table, refs) := InternAll(BatchTexts(batch));
      RequestV2Bytes(batch) == SymbolsOnWire(table.symbols) + SeriesListOnWire(batch, refs)
  {
    hide Serialize, SymbolFields, SeriesListFields, SymbolsOnWire, SeriesListOnWire, InternAll, BatchTexts, BatchSized;
    var (table, refs) := InternAll(BatchTexts(batch));
    SerializeAppend(SymbolFields(table.symbols), SeriesListFields(batch, refs));
    SymbolsExactly(table.symbols);
    SeriesListExactly(batch, refs);
  }
}
