/**
 A receiver's decoder for the remote-write messages, written from the message
 definitions the source pins (`src/model.rs:86-93`, `src/model.rs:236-308`):
 fields are merged one at a time, the last scalar wins, repeated fields append,
 unknown fields are skipped, and a known field of the wrong type is an error.
 */
module WireDecoding {
  import opened Basics
  import opened Model
  import opened WireScalars
  import opened Protobuf
  import opened WireMessages

  // ----- merging fields into a message

  function MergeAll<M>(init: M, fields: seq<Field>, merge: (M, Field) -> Option<M>): Option<M> {
    if fields == [] then Some(init)
    else
      match merge(init, fields[0])
      case None => None
      case Some(next) => MergeAll(next, fields[1..], merge)
  }

  function DecodeMessage<M>(bytes: seq<byte>, init: M, merge: (M, Field) -> Option<M>): Option<M> {
    match ReadFields(bytes)
    case None => None
    case Some(fields) => MergeAll(init, fields, merge)
  }

  lemma {:induction false} MergeAppend<M>(init: M, a: seq<Field>, b: seq<Field>, merge: (M, Field) -> Option<M>, mid: M)
    requires MergeAll(init, a, merge) == Some(mid)
    ensures MergeAll(init, a + b, merge) == MergeAll(mid, b, merge)
  {
    if a == [] {
      assert a + b == b;
    } else {
      MergeAppend(merge(init, a[0]).value, a[1..], b, merge, mid);
      assert (a + b)[1..] == a[1..] + b && (a + b)[0] == a[0];
    }
  }

  lemma MergeOneField<M>(init: M, field: Field, merge: (M, Field) -> Option<M>)
    ensures MergeAll(init, [field], merge) == merge(init, field)
  {
    assert [field][1..] == [];
  }

  lemma MergeWhen<M>(init: M, present: bool, field: Field, merge: (M, Field) -> Option<M>)
    ensures MergeAll(init, When(present, field), merge) == if present then merge(init, field) else Some(init)
  {
    MergeOneField(init, field, merge);
  }

  /** Field numbers a single key byte can carry. */
  predicate Numbered(fields: seq<Field>) {
    forall i | 0 <= i < |fields| :: 1 <= fields[i].num <= 15
  }

  lemma NumberedAppend(a: seq<Field>, b: seq<Field>)
    requires Numbered(a) && Numbered(b)
    ensures Numbered(a + b)
  {
  }

  /** One more field in front of the others. */
  lemma MergeCons<M>(init: M, field: Field, rest: seq<Field>, merge: (M, Field) -> Option<M>, next: M)
    requires merge(init, field) == Some(next)
    ensures MergeAll(init, [field] + rest, merge) == MergeAll(next, rest, merge)
  {
    assert ([field] + rest)[1..] == rest;
  }

  lemma NoFields<M>(init: M, merge: (M, Field) -> Option<M>)
    ensures MergeAll(init, [], merge) == Some(init) && Numbered([])
  {
  }

  lemma NumberedCons(field: Field, rest: seq<Field>)
    requires 1 <= field.num <= 15 && Numbered(rest)
    ensures Numbered([field] + rest)
  {
  }

  lemma ConsFits(num: nat, payload: seq<byte>, rest: seq<Field>)
    ensures |payload| <= |Serialize([BytesField(num, payload)] + rest)|
    ensures |Serialize(rest)| <= |Serialize([BytesField(num, payload)] + rest)|
  {
    hide FieldBytes;
    var fields := [BytesField(num, payload)] + rest;
    assert fields[1..] == rest && fields[0] == BytesField(num, payload);
    PayloadFits(fields, 0);
  }

  /** A message below 2^64 bytes decodes to the merge of its fields. */
  lemma DecodeSerialized<M>(init: M, fields: seq<Field>, merge: (M, Field) -> Option<M>)
    requires Numbered(fields) && |Serialize(fields)| < TWO_64
    ensures DecodeMessage(Serialize(fields), init, merge) == MergeAll(init, fields, merge)
  {
    forall i | 0 <= i < |fields|
      ensures Wire(fields[i])
    {
      if fields[i].BytesField? {
        PayloadFits(fields, i);
      }
    }
    FieldsRoundTrip(fields);
  }

  // ----- labels and samples

  function LabelMerge(pair: Label, field: Field): Option<Label> {
    match field
    case BytesField(num, payload) =>
      Some(if num == 1 then pair.(name := payload) else if num == 2 then pair.(value := payload) else pair)
    case _ => if field.num == 1 || field.num == 2 then None else Some(pair)
  }

  function DecodeLabel(bytes: seq<byte>): Option<Label> {
    DecodeMessage(bytes, Label([], []), LabelMerge)
  }

  lemma LabelRoundTrip(pair: Label)
    requires |Serialize(LabelFields(pair))| < TWO_64
    ensures DecodeLabel(Serialize(LabelFields(pair))) == Some(pair)
  {
    var name, value := TextFields(1, pair.name), TextFields(2, pair.value);
    DecodeSerialized(Label([], []), LabelFields(pair), LabelMerge);
    MergeWhen(Label([], []), pair.name != [], BytesField(1, pair.name), LabelMerge);
    MergeAppend(Label([], []), name, value, LabelMerge, Label(pair.name, []));
    MergeWhen(Label(pair.name, []), pair.value != [], BytesField(2, pair.value), LabelMerge);
  }

  /** A double on arrival: only negative zero changes, it is skipped like zero. */
  function Received(x: F64): F64 {
    if x == 0x8000_0000_0000_0000 then 0 else x
  }

  function SampleMerge(sample: Sample, field: Field): Option<Sample> {
    match field
    case DoubleField(1, bits) => Some(sample.(value := bits))
    case VarintField(2, bits) => Some(sample.(timestamp := FromInt64Bits(bits)))
    case _ => if field.num == 1 || field.num == 2 then None else Some(sample)
  }

  function DecodeSample(bytes: seq<byte>): Option<Sample> {
    DecodeMessage(bytes, Sample(0, 0), SampleMerge)
  }

  lemma SampleRoundTrip(sample: Sample)
    requires |Serialize(SampleFields(sample))| < TWO_64
    ensures DecodeSample(Serialize(SampleFields(sample))) == Some(sample.(value := Received(sample.value)))
    ensures DecodeSample(Serialize(SampleFields(sample))) == Some(
      Sample(if sample.value == 0x8000_0000_0000_0000 then 0 else sample.value, sample.timestamp))
  {
    hide Serialize, MergeAll, DecodeMessage, Int64Bits, FromInt64Bits;
    Int64BitsRoundTrip(sample.timestamp);
    var value := When(!IsZero(sample.value), DoubleField(1, sample.value));
    var timestamp := When(sample.timestamp != 0, VarintField(2, Int64Bits(sample.timestamp)));
    var mid := Sample(Received(sample.value), 0);
    DecodeSerialized(Sample(0, 0), SampleFields(sample), SampleMerge);
    MergeWhen(Sample(0, 0), !IsZero(sample.value), DoubleField(1, sample.value), SampleMerge);
    MergeAppend(Sample(0, 0), value, timestamp, SampleMerge, mid);
    MergeWhen(mid, sample.timestamp != 0, VarintField(2, Int64Bits(sample.timestamp)), SampleMerge);
  }

  // ----- spans

  function UInt32(bits: u64): u32 {
    bits % TWO_32
  }

  function SInt32(bits: u64): (r: i32) {
    UnZigZag(bits % TWO_32)
  }

  function SpanMerge(span: BucketSpan, field: Field): Option<BucketSpan> {
    match field
    case VarintField(1, bits) => Some(span.(offset := SInt32(bits)))
    case VarintField(2, bits) => Some(span.(length := UInt32(bits)))
    case _ => if field.num == 1 || field.num == 2 then None else Some(span)
  }

  function DecodeSpan(bytes: seq<byte>): Option<BucketSpan> {
    DecodeMessage(bytes, BucketSpan(0, 0), SpanMerge)
  }

  lemma SpanRoundTrip(span: BucketSpan)
    requires SpanSized(span) && |Serialize(SpanFields(span))| < TWO_64
    ensures DecodeSpan(Serialize(SpanFields(span))) == Some(span)
  {
    hide Serialize, MergeAll, DecodeMessage, ZigZag, UnZigZag, SInt32;
    SInt32OfZigZag(span.offset);
    var offset := When(span.offset != 0, VarintField(1, ZigZag(span.offset)));
    var length := When(span.length != 0, VarintField(2, span.length));
    var mid := BucketSpan(span.offset, 0);
    DecodeSerialized(BucketSpan(0, 0), SpanFields(span), SpanMerge);
    MergeWhen(BucketSpan(0, 0), span.offset != 0, VarintField(1, ZigZag(span.offset)), SpanMerge);
    MergeAppend(BucketSpan(0, 0), offset, length, SpanMerge, mid);
    MergeWhen(mid, span.length != 0, VarintField(2, span.length), SpanMerge);
  }

  // ----- histograms

  /** The message a receiver sees; both oneofs are optional on the wire. */
  datatype WireHistogram = WireHistogram(
    count: Option<HistogramCount>,
    sum: F64,
    schema: i32,
    zeroThreshold: F64,
    zeroCount: Option<HistogramCount>,
    negative: Side,
    positive: Side,
    resetHint: u32,
    timestamp: i64)

  const EMPTY_SIDE := Side([], [], [])
  const EMPTY_HISTOGRAM := WireHistogram(None, 0, 0, 0, None, EMPTY_SIDE, EMPTY_SIDE, 0, 0)

  /** `prompb.Histogram.ResetHint`. */
  function HintOnWire(hint: ResetHint): u32 {
    match hint
    case Unknown => 0
    case Yes => 1
    case No => 2
    case Gauge => 3
  }

  /** The wire view of a histogram sampled at `timestamp`, its skipped zeros normalised. */
  function FromHistogram(h: Histogram, timestamp: i64): WireHistogram {
    WireHistogram(
      Some(h.count), Received(h.sum), h.schema, Received(h.zeroThreshold), Some(h.zeroCount),
      h.negative, h.positive, HintOnWire(h.resetHint), timestamp)
  }

  /** One field of a side whose spans, deltas and counts start at number `num`. */
  function SideMerge(side: Side, field: Field, num: nat): Option<Side> {
    match field
    case BytesField(n, payload) =>
      if n == num then
        match DecodeSpan(payload)
        case None => None
        case Some(span) => Some(side.(spans := side.spans + [span]))
      else if n == num + 1 then
        match ReadPackedZigZag(payload)
        case None => None
        case Some(deltas) => Some(side.(deltas := side.deltas + deltas))
      else if n == num + 2 then
        match ReadPackedDoubles(payload)
        case None => None
        case Some(counts) => Some(side.(counts := side.counts + counts))
      else Some(side)
    // Repeated numbers may also arrive unpacked, one field each.
    case VarintField(n, bits) => if n == num + 1 then Some(side.(deltas := side.deltas + [UnZigZag(bits)])) else None
    case DoubleField(n, bits) => if n == num + 2 then Some(side.(counts := side.counts + [bits])) else None
  }

  function HistogramMerge(w: WireHistogram, field: Field): Option<WireHistogram> {
    if 8 <= field.num <= 10 then
      match SideMerge(w.negative, field, 8)
      case None => None
      case Some(side) => Some(w.(negative := side))
    else if 11 <= field.num <= 13 then
      match SideMerge(w.positive, field, 11)
      case None => None
      case Some(side) => Some(w.(positive := side))
    else
      match field
      case VarintField(1, n) => Some(w.(count := Some(CountInt(n))))
      case DoubleField(2, f) => Some(w.(count := Some(CountFloat(f))))
      case DoubleField(3, f) => Some(w.(sum := f))
      case VarintField(4, bits) => Some(w.(schema := SInt32(bits)))
      case DoubleField(5, f) => Some(w.(zeroThreshold := f))
      case VarintField(6, n) => Some(w.(zeroCount := Some(CountInt(n))))
      case DoubleField(7, f) => Some(w.(zeroCount := Some(CountFloat(f))))
      case VarintField(14, n) => Some(w.(resetHint := UInt32(n)))
      case VarintField(15, bits) => Some(w.(timestamp := FromInt64Bits(bits)))
      case _ => if field.num <= 15 then None else Some(w)
  }

  function DecodeHistogram(bytes: seq<byte>): Option<WireHistogram> {
    DecodeMessage(bytes, EMPTY_HISTOGRAM, HistogramMerge)
  }

  function GetSide(w: WireHistogram, num: nat): Side {
    if num == 8 then w.negative else w.positive
  }

  function SetSide(w: WireHistogram, num: nat, side: Side): WireHistogram {
    if num == 8 then w.(negative := side) else w.(positive := side)
  }

  predicate SideNumber(num: nat) {
    num == 8 || num == 11
  }

  lemma {:induction false} SpansMerge(w: WireHistogram, num: nat, spans: seq<BucketSpan>)
    requires SideNumber(num) && SpansSized(spans)
    ensures MergeAll(w, SpansFields(num, spans), HistogramMerge)
      == Some(SetSide(w, num, GetSide(w, num).(spans := GetSide(w, num).spans + spans)))
    ensures Numbered(SpansFields(num, spans))
    decreases |spans|
  {
    hide Serialize, SpanFields, DecodeSpan, MergeAll, Numbered;
    var side := GetSide(w, num);
    if spans == [] {
      assert side.spans + spans == side.spans;
      NoFields(w, HistogramMerge);
    } else {
      var next := SetSide(w, num, side.(spans := side.spans + [spans[0]]));
      var field, rest := BytesField(num, Serialize(SpanFields(spans[0]))), SpansFields(num, spans[1..]);
      assert SpanWireLen(spans[0]) < TWO_64;
      SpanRoundTrip(spans[0]);
      SpansMerge(next, num, spans[1..]);
      assert (side.spans + [spans[0]]) + spans[1..] == side.spans + spans;
      MergeCons(w, field, rest, HistogramMerge, next);
      NumberedCons(field, rest);
    }
  }

  lemma PackedMerge(w: WireHistogram, num: nat, side: Side)
    requires SideNumber(num) && GetSide(w, num) == Side(side.spans, [], [])
    ensures MergeAll(w, DeltasFields(num + 1, side.deltas) + CountsFields(num + 2, side.counts), HistogramMerge)
      == Some(SetSide(w, num, side))
  {
    hide PackedZigZag, PackedDoubles, ReadPackedZigZag, ReadPackedDoubles;
    var mid := SetSide(w, num, Side(side.spans, side.deltas, []));
    var deltas := BytesField(num + 1, PackedZigZag(side.deltas));
    var counts := BytesField(num + 2, PackedDoubles(side.counts));
    PackedZigZagRoundTrip(side.deltas);
    PackedDoublesRoundTrip(side.counts);
    assert [] + side.deltas == side.deltas && [] + side.counts == side.counts;
    MergeWhen(w, side.deltas != [], deltas, HistogramMerge);
    MergeAppend(
      w, DeltasFields(num + 1, side.deltas), CountsFields(num + 2, side.counts), HistogramMerge, mid);
    MergeWhen(mid, side.counts != [], counts, HistogramMerge);
  }

  lemma SideMerges(w: WireHistogram, num: nat, side: Side)
    requires SideNumber(num) && SpansSized(side.spans) && GetSide(w, num) == EMPTY_SIDE
    ensures MergeAll(w, SideFields(num, side), HistogramMerge) == Some(SetSide(w, num, side))
    ensures Numbered(SideFields(num, side))
  {
    hide SpansFields, SpansSized, HistogramMerge, MergeAll;
    var mid := SetSide(w, num, Side(side.spans, [], []));
    var packed := DeltasFields(num + 1, side.deltas) + CountsFields(num + 2, side.counts);
    SpansMerge(w, num, side.spans);
    assert [] + side.spans == side.spans;
    MergeAppend(w, SpansFields(num, side.spans), packed, HistogramMerge, mid);
    PackedMerge(mid, num, side);
  }

  /** The state after the fields before the bucket sides. */
  function HeadState(h: Histogram): WireHistogram {
    WireHistogram(
      Some(h.count), Received(h.sum), h.schema, Received(h.zeroThreshold), Some(h.zeroCount),
      EMPTY_SIDE, EMPTY_SIDE, 0, 0)
  }

  lemma HeadMerges(h: Histogram)
    ensures MergeAll(EMPTY_HISTOGRAM, HeadFields(h), HistogramMerge) == Some(HeadState(h))
    ensures Numbered(HeadFields(h))
  {
    hide ZigZag, UnZigZag, MergeAll;
    var sum := DoubleField(3, h.sum);
    var schema := VarintField(4, ZigZag(h.schema));
    var threshold := DoubleField(5, h.zeroThreshold);
    var zeroCount := CountField(6, 7, h.zeroCount);
    var w1 := EMPTY_HISTOGRAM.(count := Some(h.count));
    var w2 := w1.(sum := Received(h.sum));
    var w3 := w2.(schema := h.schema);
    var w4 := w3.(zeroThreshold := Received(h.zeroThreshold));
    var s2, s3, s4 := When(!IsZero(h.sum), sum), When(h.schema != 0, schema), When(!IsZero(h.zeroThreshold), threshold);
    assert SInt32(ZigZag(h.schema)) == h.schema by { SInt32OfZigZag(h.schema); }
    MergeOneField(EMPTY_HISTOGRAM, CountField(1, 2, h.count), HistogramMerge);
    MergeWhen(w1, !IsZero(h.sum), sum, HistogramMerge);
    MergeWhen(w2, h.schema != 0, schema, HistogramMerge);
    MergeWhen(w3, !IsZero(h.zeroThreshold), threshold, HistogramMerge);
    MergeOneField(w4, zeroCount, HistogramMerge);
    MergeAppend(w3, s4, [zeroCount], HistogramMerge, w4);
    MergeAppend(w2, s3, s4 + [zeroCount], HistogramMerge, w3);
    MergeAppend(w1, s2, s3 + (s4 + [zeroCount]), HistogramMerge, w2);
    MergeAppend(EMPTY_HISTOGRAM, [CountField(1, 2, h.count)], s2 + (s3 + (s4 + [zeroCount])), HistogramMerge, w1);
  }

  lemma SInt32OfZigZag(value: i32)
    ensures SInt32(ZigZag(value)) == value
  {
  }

  lemma TailMerges(w: WireHistogram, h: Histogram, timestamp: i64)
    requires w.resetHint == 0 && w.timestamp == 0
    ensures MergeAll(w, TailFields(h, timestamp), HistogramMerge)
      == Some(w.(resetHint := HintOnWire(h.resetHint), timestamp := timestamp))
    ensures Numbered(TailFields(h, timestamp))
  {
    var hint := VarintField(14, ResetHintValue(h.resetHint));
    var time := VarintField(15, Int64Bits(timestamp));
    var mid := w.(resetHint := HintOnWire(h.resetHint));
    MergeWhen(w, h.resetHint != Unknown, hint, HistogramMerge);
    MergeAppend(w, When(h.resetHint != Unknown, hint), When(timestamp != 0, time), HistogramMerge, mid);
    MergeWhen(mid, timestamp != 0, time, HistogramMerge);
  }

  /** A receiver reads back every histogram, up to the sign of skipped zeros. */
  lemma HistogramRoundTrip(h: Histogram, timestamp: i64)
    requires HistogramSized(h) && |Serialize(HistogramFields(h, timestamp))| < TWO_64
    ensures DecodeHistogram(Serialize(HistogramFields(h, timestamp))) == Some(FromHistogram(h, timestamp))
    ensures
      var w := DecodeHistogram(Serialize(HistogramFields(h, timestamp))).value;
      && w.count == Some(h.count) && w.zeroCount == Some(h.zeroCount)
      && w.sum == (if h.sum == 0x8000_0000_0000_0000 then 0 else h.sum)
      && w.zeroThreshold == (if h.zeroThreshold == 0x8000_0000_0000_0000 then 0 else h.zeroThreshold)
      && w.schema == h.schema && w.negative == h.negative && w.positive == h.positive && w.timestamp == timestamp
      && w.resetHint == (match h.resetHint case Unknown => 0 case Yes => 1 case No => 2 case Gauge => 3)
  {
    hide Serialize, HeadFields, SideFields, TailFields, HistogramMerge, MergeAll, SpansSized, DecodeMessage, Numbered;
    var head, negative, positive, tail :=
      HeadFields(h), SideFields(8, h.negative), SideFields(11, h.positive), TailFields(h, timestamp);
    var w1 := HeadState(h);
    var w2 := w1.(negative := h.negative);
    var w3 := w2.(positive := h.positive);
    HeadMerges(h);
    SideMerges(w1, 8, h.negative);
    SideMerges(w2, 11, h.positive);
    TailMerges(w3, h, timestamp);
    NumberedAppend(positive, tail);
    NumberedAppend(negative, positive + tail);
    NumberedAppend(head, negative + (positive + tail));
    DecodeSerialized(EMPTY_HISTOGRAM, HistogramFields(h, timestamp), HistogramMerge);
    MergeAppend(EMPTY_HISTOGRAM, head, negative + (positive + tail), HistogramMerge, w1);
    MergeAppend(w1, negative, positive + tail, HistogramMerge, w2);
    MergeAppend(w2, positive, tail, HistogramMerge, w3);
  }
}
