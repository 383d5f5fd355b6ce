/** The hand-rolled remote-write 1.0 encoder (`src/model.rs:351-660`): methods that append to a buffer. */
module Encoders {
  import opened Basics
  import opened Model
  import opened WireScalars
  import opened Protobuf
  import opened WireMessages
  import opened WriteRequests

  /** `Vec<u8>` in append position. */
  class Buffer {
    var bytes: seq<byte>

    constructor ()
      ensures bytes == []
    {
      bytes := [];
    }

    method Push(b: byte)
      modifies this
      ensures bytes == old(bytes) + [b]
    {
      bytes := bytes + [b];
    }

    method Extend(more: seq<byte>)
      modifies this
      ensures bytes == old(bytes) + more
    {
      bytes := bytes + more;
    }

    method PutVarint(value: u64)
      modifies this
      ensures bytes == old(bytes) + Varint(value)
    {
      var v := value;
      while v >= 0x80
        invariant bytes + Varint(v) == old(bytes) + Varint(value)
      {
        Push(v % 128 + 128);
        v := v / 128;
      }
      Push(v);
    }

    /** A key byte, a length and a payload: one length-delimited field. */
    method PutBytesField(tag: byte, payload: seq<byte>)
      requires tag % 8 == 2 && 8 <= tag < 128
      modifies this
      ensures bytes == old(bytes) + Serialize([BytesField(tag / 8, payload)])
    {
      SerializeOne(BytesField(tag / 8, payload));
      Push(tag);
      PutVarint(|payload| % TWO_64);
      Extend(payload);
    }

    method PutStringField(tag: byte, value: Text)
      requires tag % 8 == 2 && 8 <= tag < 128
      modifies this
      ensures bytes == old(bytes) + Serialize(TextFields(tag / 8, value))
    {
      if value == [] {
        return;
      }
      PutBytesField(tag, value);
    }

    method PutVarintField(tag: byte, value: u64)
      requires tag % 8 == 0 && 8 <= tag < 128
      modifies this
      ensures bytes == old(bytes) + Serialize([VarintField(tag / 8, value)])
    {
      SerializeOne(VarintField(tag / 8, value));
      Push(tag);
      PutVarint(value);
    }

    method PutDoubleField(tag: byte, bits: F64)
      requires tag % 8 == 1 && 8 <= tag < 128
      modifies this
      ensures bytes == old(bytes) + Serialize([DoubleField(tag / 8, bits)])
    {
      SerializeOne(DoubleField(tag / 8, bits));
      Push(tag);
      Extend(DoubleBytes(bits));
    }

    method PutSample(sample: Sample)
      modifies this
      ensures bytes == old(bytes) + Serialize(SampleFields(sample))
    {
      hide Serialize, Int64Bits;
      SerializeNothing();
      TwoParts(
        bytes, When(!IsZero(sample.value), DoubleField(1, sample.value)),
        When(sample.timestamp != 0, VarintField(2, Int64Bits(sample.timestamp))));
      assert forall b: seq<byte> :: b + [] == b;
      if !IsZero(sample.value) {
        PutDoubleField(0x09, sample.value);
      }
      if sample.timestamp != 0 {
        PutVarintField(0x10, Int64Bits(sample.timestamp));
      }
    }

    method PutSpan(span: BucketSpan)
      requires SpanSized(span)
      modifies this
      ensures bytes == old(bytes) + Serialize(SpanFields(span))
    {
      hide Serialize, ZigZag;
      SerializeNothing();
      TwoParts(
        bytes, When(span.offset != 0, VarintField(1, ZigZag(span.offset))),
        When(span.length != 0, VarintField(2, span.length)));
      assert forall b: seq<byte> :: b + [] == b;
      if span.offset != 0 {
        PutVarintField(0x08, ZigZag(span.offset));
      }
      if span.length != 0 {
        PutVarintField(0x10, span.length);
      }
    }

    /** Key and computed length: what every nested message and packed field starts with. */
    method PutHeader(tag: byte, len: nat)
      requires tag % 8 == 2 && 8 <= tag < 128
      modifies this
      ensures bytes == old(bytes) + Header(tag / 8, len)
    {
      Push(tag);
      PutVarint(len % TWO_64);
    }

    method PutSpans(tag: byte, spans: seq<BucketSpan>)
      requires tag % 8 == 2 && 8 <= tag < 128 && SpansSized(spans)
      modifies this
      ensures bytes == old(bytes) + Serialize(SpansFields(tag / 8, spans))
    {
      hide Header, SpanFields, Serialize;
      var num := tag / 8;
      assert spans[..0] == [];
      SpansSerializedEmpty(num);
      for i := 0 to |spans|
        invariant bytes == old(bytes) + Serialize(SpansFields(num, spans[..i]))
      {
        ghost var before := bytes;
        PutHeader(tag, SpanWireLen(spans[i]));
        PutSpan(spans[i]);
        FramedBytes(before, num, Serialize(SpanFields(spans[i])));
        SpansSnoc(num, spans, i);
        AppendAssociative(
          old(bytes), Serialize(SpansFields(num, spans[..i])),
          FieldBytes(BytesField(num, Serialize(SpanFields(spans[i])))));
      }
      assert spans[..|spans|] == spans;
    }

    method PutDeltas(tag: byte, deltas: seq<i64>)
      requires tag % 8 == 2 && 8 <= tag < 128
      modifies this
      ensures bytes == old(bytes) + Serialize(DeltasFields(tag / 8, deltas))
    {
      hide Header, Varint, ZigZag;
      if deltas == [] {
        return;
      }
      PutHeader(tag, DeltasPayloadLen(deltas));
      ghost var header := bytes;
      for i := 0 to |deltas|
        invariant bytes == header + PackedZigZag(deltas[..i])
      {
        PackedZigZagSnoc(deltas, i);
        AppendAssociative(header, PackedZigZag(deltas[..i]), Varint(ZigZag(deltas[i])));
        PutVarint(ZigZag(deltas[i]));
      }
      assert deltas[..|deltas|] == deltas;
      SerializeOne(BytesField(tag / 8, PackedZigZag(deltas)));
      FramedBytes(old(bytes), tag / 8, PackedZigZag(deltas));
    }

    method PutCounts(tag: byte, counts: seq<F64>)
      requires tag % 8 == 2 && 8 <= tag < 128
      modifies this
      ensures bytes == old(bytes) + Serialize(CountsFields(tag / 8, counts))
    {
      hide Header, DoubleBytes;
      if counts == [] {
        return;
      }
      PutHeader(tag, |counts| * 8);
      ghost var header := bytes;
      for i := 0 to |counts|
        invariant bytes == header + PackedDoubles(counts[..i])
      {
        PackedDoublesSnoc(counts, i);
        AppendAssociative(header, PackedDoubles(counts[..i]), DoubleBytes(counts[i]));
        Extend(DoubleBytes(counts[i]));
      }
      assert counts[..|counts|] == counts;
      SerializeOne(BytesField(tag / 8, PackedDoubles(counts)));
      FramedBytes(old(bytes), tag / 8, PackedDoubles(counts));
    }

    method PutCount(intTag: byte, floatTag: byte, count: HistogramCount)
      requires intTag % 8 == 0 && 8 <= intTag < 128 && floatTag % 8 == 1 && 8 <= floatTag < 128
      modifies this
      ensures bytes == old(bytes) + Serialize([CountField(intTag / 8, floatTag / 8, count)])
    {
      match count
      case CountInt(n) => PutVarintField(intTag, n);
      case CountFloat(f) => PutDoubleField(floatTag, f);
    }

    /** The scalar fields before the bucket lists. */
    method PutHead(h: Histogram)
      modifies this
      ensures bytes == old(bytes) + Serialize(HeadFields(h))
    {
      hide Serialize, ZigZag, CountField, IsZero;
      ghost var sum := When(!IsZero(h.sum), DoubleField(3, h.sum));
      ghost var schema := When(h.schema != 0, VarintField(4, ZigZag(h.schema)));
      ghost var threshold := When(!IsZero(h.zeroThreshold), DoubleField(5, h.zeroThreshold));
      ghost var zeroCount := [CountField(6, 7, h.zeroCount)];
      SerializeNothing();
      PutCount(0x08, 0x11, h.count);
      if !IsZero(h.sum) {
        PutDoubleField(0x19, h.sum);
      }
      assert bytes == old(bytes) + Serialize([CountField(1, 2, h.count)]) + Serialize(sum);
      if h.schema != 0 {
        PutVarintField(0x20, ZigZag(h.schema));
      }
      assert bytes == old(bytes) + Serialize([CountField(1, 2, h.count)]) + Serialize(sum) + Serialize(schema);
      if !IsZero(h.zeroThreshold) {
        PutDoubleField(0x29, h.zeroThreshold);
      }
      PutCount(0x30, 0x39, h.zeroCount);
      FiveParts(old(bytes), [CountField(1, 2, h.count)], sum, schema, threshold, zeroCount);
    }

    /** Spans, deltas and counts of one side. */
    method PutSide(tag: byte, side: Side)
      requires tag == 0x42 || tag == 0x5a
      requires SpansSized(side.spans)
      modifies this
      ensures bytes == old(bytes) + Serialize(SideFields(tag / 8, side))
    {
      hide Serialize, SpansFields, DeltasFields, CountsFields, SpansSized;
      PutSpans(tag, side.spans);
      PutDeltas(tag + 8, side.deltas);
      PutCounts(tag + 16, side.counts);
      ThreeParts(
        old(bytes), SpansFields(tag / 8, side.spans), DeltasFields(tag / 8 + 1, side.deltas),
        CountsFields(tag / 8 + 2, side.counts));
    }

    method PutTail(h: Histogram, timestamp: i64)
      modifies this
      ensures bytes == old(bytes) + Serialize(TailFields(h, timestamp))
    {
      ghost var hint := When(h.resetHint != Unknown, VarintField(14, ResetHintValue(h.resetHint)));
      SerializeAppend(hint, When(timestamp != 0, VarintField(15, Int64Bits(timestamp))));
      if h.resetHint != Unknown {
        Push(0x70);
        Push(ResetHintValue(h.resetHint));
        SerializeOne(VarintField(14, ResetHintValue(h.resetHint)));
      }
      assert bytes == old(bytes) + Serialize(hint);
      if timestamp != 0 {
        PutVarintField(0x78, Int64Bits(timestamp));
      }
    }

    /** The histogram message body, fields in tag order. */
    method PutHistogram(h: Histogram, timestamp: i64)
      requires HistogramSized(h)
      modifies this
      ensures bytes == old(bytes) + Serialize(HistogramFields(h, timestamp))
    {
      hide Serialize, HeadFields, SideFields, TailFields, SpansSized;
      PutHead(h);
      PutSide(0x42, h.negative);
      PutSide(0x5a, h.positive);
      PutTail(h, timestamp);
      FourParts(
        old(bytes), HeadFields(h), SideFields(8, h.negative), SideFields(11, h.positive), TailFields(h, timestamp));
    }

    /** The series' one value as a repeated field of one. */
    method PutValue(sampleTag: byte, histogramTag: byte, series: TimeSeries)
      requires sampleTag % 8 == 2 && 8 <= sampleTag < 128 && histogramTag % 8 == 2 && 8 <= histogramTag < 128
      requires SeriesSized(series)
      modifies this
      ensures bytes == old(bytes) + Serialize([ValueField(sampleTag / 8, histogramTag / 8, series)])
    {
      hide Serialize, HistogramFields, SampleFields, Header, HistogramSized;
      SerializeOne(ValueField(sampleTag / 8, histogramTag / 8, series));
      match series.histogram
      case Some(h) =>
        PutHeader(histogramTag, HistogramWireLen(h, series.sample.timestamp));
        PutHistogram(h, series.sample.timestamp);
        FramedBytes(old(bytes), histogramTag / 8, ValueBytes(series));
      case None =>
        PutHeader(sampleTag, SampleWireLen(series.sample));
        PutSample(series.sample);
        FramedBytes(old(bytes), sampleTag / 8, ValueBytes(series));
    }

    method PutLabel(pair: Label)
      modifies this
      ensures bytes == old(bytes) + FieldBytes(BytesField(1, Serialize(LabelFields(pair))))
    {
      hide Serialize, Header, TextFields;
      PutHeader(0x0a, LabelWireLen(pair));
      ghost var header := bytes;
      PutStringField(0x0a, pair.name);
      PutStringField(0x12, pair.value);
      SerializeAppend(TextFields(1, pair.name), TextFields(2, pair.value));
      AppendAssociative(header, Serialize(TextFields(1, pair.name)), Serialize(TextFields(2, pair.value)));
      FramedBytes(old(bytes), 1, Serialize(LabelFields(pair)));
    }

    method PutLabels(labels: seq<Label>)
      modifies this
      ensures bytes == old(bytes) + Serialize(LabelsFields(labels))
    {
      hide Serialize, LabelFields, FieldBytes;
      SerializeNothing();
      assert labels[..0] == [];
      for i := 0 to |labels|
        invariant bytes == old(bytes) + Serialize(LabelsFields(labels[..i]))
      {
        PutLabel(labels[i]);
        LabelsSnoc(labels, i);
        AppendAssociative(
          old(bytes), Serialize(LabelsFields(labels[..i])),
          FieldBytes(BytesField(1, Serialize(LabelFields(labels[i])))));
      }
      assert labels[..|labels|] == labels;
    }

    method PutSeries(series: TimeSeries)
      requires SeriesSized(series)
      modifies this
      ensures bytes == old(bytes) + FieldBytes(BytesField(1, Serialize(SeriesFields(series))))
    {
      hide Serialize, Header, LabelsFields, ValueField, SeriesSized;
      PutHeader(0x0a, SeriesWireLen(series));
      ghost var header := bytes;
      PutLabels(series.labels);
      PutValue(0x12, 0x22, series);
      SerializeAppend(LabelsFields(series.labels), [ValueField(2, 4, series)]);
      AppendAssociative(header, Serialize(LabelsFields(series.labels)), Serialize([ValueField(2, 4, series)]));
      FramedBytes(old(bytes), 1, Serialize(SeriesFields(series)));
    }

    /** `WriteRequest::encode_into`: append a remote-write 1.0 request, leaving what the
        buffer held in place. */
    method EncodeRequest(batch: seq<TimeSeries>)
      requires BatchSized(batch)
      modifies this
      ensures bytes == old(bytes) + RequestBytes(batch)
    {
      hide Serialize, SeriesFields, FieldBytes, SeriesSized;
      SerializeNothing();
      assert batch[..0] == [];
      for i := 0 to |batch|
        invariant bytes == old(bytes) + Serialize(RequestFields(batch[..i]))
      {
        PutSeries(batch[i]);
        RequestSnoc(batch, i);
        AppendAssociative(
          old(bytes), Serialize(RequestFields(batch[..i])),
          FieldBytes(BytesField(1, Serialize(SeriesFields(batch[i])))));
      }
      assert batch[..|batch|] == batch;
    }
  }

  lemma SerializeNothing()
    ensures Serialize([]) == []
  {
  }

  lemma TwoParts(before: seq<byte>, a: seq<Field>, b: seq<Field>)
    ensures before + Serialize(a) + Serialize(b) == before + Serialize(a + b)
  {
    hide Serialize;
    SerializeAppend(a, b);
    AppendAssociative(before, Serialize(a), Serialize(b));
  }

  lemma ThreeParts(before: seq<byte>, a: seq<Field>, b: seq<Field>, c: seq<Field>)
    ensures before + Serialize(a) + Serialize(b) + Serialize(c) == before + Serialize(a + (b + c))
  {
    hide Serialize;
    TwoParts(before + Serialize(a), b, c);
    TwoParts(before, a, b + c);
  }

  lemma FourParts(before: seq<byte>, a: seq<Field>, b: seq<Field>, c: seq<Field>, d: seq<Field>)
    ensures before + Serialize(a) + Serialize(b) + Serialize(c) + Serialize(d)
      == before + Serialize(a + (b + (c + d)))
  {
    hide Serialize;
    ThreeParts(before + Serialize(a), b, c, d);
    TwoParts(before, a, b + (c + d));
  }

  lemma FiveParts(before: seq<byte>, a: seq<Field>, b: seq<Field>, c: seq<Field>, d: seq<Field>, e: seq<Field>)
    ensures before + Serialize(a) + Serialize(b) + Serialize(c) + Serialize(d) + Serialize(e)
      == before + Serialize(a + (b + (c + (d + e))))
  {
    hide Serialize;
    FourParts(before + Serialize(a), b, c, d, e);
    TwoParts(before, a, b + (c + (d + e)));
  }

  lemma {:induction false} LabelsSnoc(labels: seq<Label>, i: nat)
    requires i < |labels|
    ensures Serialize(LabelsFields(labels[..i + 1])) ==
      Serialize(LabelsFields(labels[..i])) + FieldBytes(BytesField(1, Serialize(LabelFields(labels[i]))))
  {
    hide LabelFields, FieldBytes;
    var field := BytesField(1, Serialize(LabelFields(labels[i])));
    LabelsFieldsSnoc(labels, i);
    SerializeOne(field);
    SerializeAppend(LabelsFields(labels[..i]), [field]);
  }

  lemma {:induction false} LabelsFieldsSnoc(labels: seq<Label>, i: nat)
    requires i < |labels|
    ensures LabelsFields(labels[..i + 1]) ==
      LabelsFields(labels[..i]) + [BytesField(1, Serialize(LabelFields(labels[i])))]
  {
    hide LabelFields, Serialize;
    if i == 0 {
      assert labels[..1] == [labels[0]] && labels[..0] == [];
      assert [labels[0]][1..] == [];
    } else {
      LabelsFieldsSnoc(labels[1..], i - 1);
      assert labels[..i + 1][1..] == labels[1..][..i] && labels[..i][1..] == labels[1..][..i - 1];
    }
  }

  lemma RequestSnoc(batch: seq<TimeSeries>, i: nat)
    requires i < |batch| && BatchSized(batch)
    ensures Serialize(RequestFields(batch[..i + 1])) ==
      Serialize(RequestFields(batch[..i])) + FieldBytes(BytesField(1, Serialize(SeriesFields(batch[i]))))
  {
    hide SeriesFields, FieldBytes, SeriesSized;
    var field := BytesField(1, Serialize(SeriesFields(batch[i])));
    RequestFieldsSnoc(batch, i);
    SerializeOne(field);
    SerializeAppend(RequestFields(batch[..i]), [field]);
  }

  lemma {:induction false} RequestFieldsSnoc(batch: seq<TimeSeries>, i: nat)
    requires i < |batch| && BatchSized(batch)
    ensures RequestFields(batch[..i + 1]) ==
      RequestFields(batch[..i]) + [BytesField(1, Serialize(SeriesFields(batch[i])))]
  {
    hide SeriesFields, Serialize, SeriesSized;
    if i == 0 {
      assert batch[..1] == [batch[0]] && batch[..0] == [];
      assert [batch[0]][1..] == [];
    } else {
      RequestFieldsSnoc(batch[1..], i - 1);
      assert batch[..i + 1][1..] == batch[1..][..i] && batch[..i][1..] == batch[1..][..i - 1];
    }
  }

  function Header(num: nat, len: nat): seq<byte> {
    Varint(Key(num, 2)) + Varint(len % TWO_64)
  }

  lemma AppendAssociative(a: seq<byte>, b: seq<byte>, c: seq<byte>)
    ensures (a + b) + c == a + (b + c)
  {
  }

  /** A header followed by its payload is one field. */
  lemma FramedBytes(before: seq<byte>, num: nat, payload: seq<byte>)
    ensures (before + Header(num, |payload|)) + payload == before + FieldBytes(BytesField(num, payload))
  {
    AppendAssociative(Varint(Key(num, 2)), Varint(|payload| % TWO_64), payload);
    AppendAssociative(before, Header(num, |payload|), payload);
  }

  lemma {:induction false} SpansFieldsAppend(num: nat, a: seq<BucketSpan>, b: seq<BucketSpan>)
    requires SpansSized(a) && SpansSized(b)
    ensures SpansFields(num, a + b) == SpansFields(num, a) + SpansFields(num, b)
  {
    hide SpanFields, Serialize;
    if a == [] {
      assert a + b == b;
    } else {
      SpansFieldsAppend(num, a[1..], b);
      assert (a + b)[1..] == a[1..] + b && (a + b)[0] == a[0];
    }
  }

  lemma SpansSerializedEmpty(num: nat)
    ensures Serialize(SpansFields(num, [])) == []
  {
  }

  lemma SpansSnoc(num: nat, spans: seq<BucketSpan>, i: nat)
    requires i < |spans| && SpansSized(spans)
    ensures Serialize(SpansFields(num, spans[..i + 1])) ==
      Serialize(SpansFields(num, spans[..i])) + FieldBytes(BytesField(num, Serialize(SpanFields(spans[i]))))
  {
    var field := BytesField(num, Serialize(SpanFields(spans[i])));
    assert [spans[i]][1..] == [];
    assert SpansFields(num, [spans[i]]) == [field];
    SerializeOne(field);
    TakeSnoc(spans, i);
    SpansFieldsAppend(num, spans[..i], [spans[i]]);
    SerializeAppend(SpansFields(num, spans[..i]), [field]);
  }

  lemma {:induction false} PackedZigZagSnoc(values: seq<i64>, i: nat)
    requires i < |values|
    ensures PackedZigZag(values[..i + 1]) == PackedZigZag(values[..i]) + Varint(ZigZag(values[i]))
  {
    hide Varint, ZigZag;
    if i == 0 {
      assert values[..1] == [values[0]] && values[..0] == [];
      assert [values[0]][1..] == [];
    } else {
      PackedZigZagSnoc(values[1..], i - 1);
      assert values[..i + 1][1..] == values[1..][..i] && values[..i][1..] == values[1..][..i - 1];
    }
  }

  lemma {:induction false} PackedDoublesSnoc(values: seq<F64>, i: nat)
    requires i < |values|
    ensures PackedDoubles(values[..i + 1]) == PackedDoubles(values[..i]) + DoubleBytes(values[i])
  {
    hide DoubleBytes;
    if i == 0 {
      assert values[..1] == [values[0]] && values[..0] == [];
      assert [values[0]][1..] == [];
    } else {
      PackedDoublesSnoc(values[1..], i - 1);
      assert values[..i + 1][1..] == values[1..][..i] && values[..i][1..] == values[1..][..i - 1];
    }
  }
}
