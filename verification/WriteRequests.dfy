/** Remote-write 1.0 requests: the bytes written and what a receiver reads back. */
module WriteRequests {
  import opened Basics
  import opened Model
  import opened Protobuf
  import opened WireMessages
  import opened WireDecoding

  // ----- fields written

  function LabelsFields(labels: seq<Label>): seq<Field> {
    if labels == [] then []
    else [BytesField(1, Serialize(LabelFields(labels[0])))] + LabelsFields(labels[1..])
  }

  function SeriesFields(series: TimeSeries): seq<Field>
    requires SeriesSized(series)
  {
    LabelsFields(series.labels) + [ValueField(2, 4, series)]
  }

  predicate BatchSized(batch: seq<TimeSeries>) {
    forall i | 0 <= i < |batch| :: SeriesSized(batch[i])
  }

  function RequestFields(batch: seq<TimeSeries>): seq<Field>
    requires BatchSized(batch)
  {
    if batch == [] then []
    else [BytesField(1, Serialize(SeriesFields(batch[0])))] + RequestFields(batch[1..])
  }

  /** The bytes of a remote-write 1.0 request. */
  function RequestBytes(batch: seq<TimeSeries>): seq<byte>
    requires BatchSized(batch)
  {
    Serialize(RequestFields(batch))
  }

  // ----- the length prefix of a series

  function LabelsLen(labels: seq<Label>): (len: nat)
    ensures len == |Serialize(LabelsFields(labels))|
  {
    if labels == [] then 0 else FramedLen(LabelWireLen(labels[0])) + LabelsLen(labels[1..])
  }

  function SeriesWireLen(series: TimeSeries): (len: nat)
    requires SeriesSized(series)
    ensures len == |Serialize(SeriesFields(series))|
  {
    LenOfAppend(LabelsFields(series.labels), [ValueField(2, 4, series)]);
    LabelsLen(series.labels) + FramedLen(ValueWireLen(series))
  }

  // ----- what a receiver sees

  /** `prompb.TimeSeries`. */
  datatype WireSeries = WireSeries(labels: seq<Label>, samples: seq<Sample>, histograms: seq<WireHistogram>)

  /** What of a series travels: its labels and its one value; no identity hash, and no
      float value beside a histogram. */
  function View(series: TimeSeries): WireSeries {
    match series.histogram
    case Some(h) => WireSeries(series.labels, [], [FromHistogram(h, series.sample.timestamp)])
    case None => WireSeries(series.labels, [series.sample.(value := Received(series.sample.value))], [])
  }

  function Views(batch: seq<TimeSeries>): (views: seq<WireSeries>)
    ensures |views| == |batch|
    ensures forall i | 0 <= i < |batch| :: views[i] == View(batch[i])
  {
    seq(|batch|, i requires 0 <= i < |batch| => View(batch[i]))
  }

  function SeriesMerge(w: WireSeries, field: Field): Option<WireSeries> {
    match field
    case BytesField(1, payload) =>
      (match DecodeLabel(payload)
       case None => None
       case Some(pair) => Some(w.(labels := w.labels + [pair])))
    case BytesField(2, payload) =>
      (match DecodeSample(payload)
       case None => None
       case Some(sample) => Some(w.(samples := w.samples + [sample])))
    case BytesField(4, payload) =>
      (match DecodeHistogram(payload)
       case None => None
       case Some(h) => Some(w.(histograms := w.histograms + [h])))
    case _ => if field.num == 1 || field.num == 2 || field.num == 4 then None else Some(w)
  }

  /** What a receiver has of a series: its labels, and either its sample or its histogram with the
      sample's timestamp, bit for bit but for the sign of a zero. */
  ghost predicate Arrives(series: TimeSeries, w: WireSeries) {
    && w.labels == series.labels
    && match series.histogram
       case None =>
         && w.histograms == [] && |w.samples| == 1
         && w.samples[0].timestamp == series.sample.timestamp
         && w.samples[0].value == if series.sample.value == 0x8000_0000_0000_0000 then 0 else series.sample.value
       case Some(h) =>
         && w.samples == [] && |w.histograms| == 1
         && w.histograms[0].timestamp == series.sample.timestamp
         && w.histograms[0].count == Some(h.count) && w.histograms[0].zeroCount == Some(h.zeroCount)
         && w.histograms[0].sum == (if h.sum == 0x8000_0000_0000_0000 then 0 else h.sum)
         && w.histograms[0].zeroThreshold
            == (if h.zeroThreshold == 0x8000_0000_0000_0000 then 0 else h.zeroThreshold)
         && w.histograms[0].schema == h.schema
         && w.histograms[0].negative == h.negative && w.histograms[0].positive == h.positive
         && w.histograms[0].resetHint == match h.resetHint case Unknown => 0 case Yes => 1 case No => 2 case Gauge => 3
  }

  lemma ViewArrives(series: TimeSeries)
    ensures Arrives(series, View(series))
  {
  }

  lemma ViewsArrive(batch: seq<TimeSeries>)
    ensures forall i | 0 <= i < |batch| :: Arrives(batch[i], Views(batch)[i])
  {
    hide View, Arrives;
    forall i | 0 <= i < |batch|
      ensures Arrives(batch[i], Views(batch)[i])
    {
      ViewArrives(batch[i]);
    }
  }

  const EMPTY_SERIES := WireSeries([], [], [])

  function DecodeSeries(bytes: seq<byte>): Option<WireSeries> {
    DecodeMessage(bytes, EMPTY_SERIES, SeriesMerge)
  }

  function RequestMerge(all: seq<WireSeries>, field: Field): Option<seq<WireSeries>> {
    match field
    case BytesField(1, payload) =>
      (match DecodeSeries(payload)
       case None => None
       case Some(series) => Some(all + [series]))
    case _ => if field.num == 1 then None else Some(all)
  }

  function DecodeRequest(bytes: seq<byte>): Option<seq<WireSeries>> {
    DecodeMessage(bytes, [], RequestMerge)
  }

  // ----- round trip

  lemma {:induction false} LabelsMerge(w: WireSeries, labels: seq<Label>)
    requires |Serialize(LabelsFields(labels))| < TWO_64
    ensures MergeAll(w, LabelsFields(labels), SeriesMerge) == Some(w.(labels := w.labels + labels))
    ensures Numbered(LabelsFields(labels))
    decreases |labels|
  {
    hide LabelFields, DecodeLabel, Serialize, MergeAll, Numbered;
    if labels == [] {
      assert w.labels + labels == w.labels;
      NoFields(w, SeriesMerge);
    } else {
      var next := w.(labels := w.labels + [labels[0]]);
      var payload, rest := Serialize(LabelFields(labels[0])), LabelsFields(labels[1..]);
      ConsFits(1, payload, rest);
      LabelRoundTrip(labels[0]);
      LabelsMerge(next, labels[1..]);
      assert (w.labels + [labels[0]]) + labels[1..] == w.labels + labels;
      MergeCons(w, BytesField(1, payload), rest, SeriesMerge, next);
      NumberedCons(BytesField(1, payload), rest);
    }
  }

  lemma ValueMerges(w: WireSeries, series: TimeSeries)
    requires SeriesSized(series) && |ValueBytes(series)| < TWO_64
    requires w == EMPTY_SERIES.(labels := series.labels)
    ensures SeriesMerge(w, ValueField(2, 4, series)) == Some(View(series))
  {
    hide HistogramFields, SampleFields, DecodeSample, DecodeHistogram;
    assert forall s: Sample :: [] + [s] == [s];
    assert forall h: WireHistogram :: [] + [h] == [h];
    if series.histogram.Some? {
      HistogramRoundTrip(series.histogram.value, series.sample.timestamp);
    } else {
      SampleRoundTrip(series.sample);
    }
  }

  lemma SeriesRoundTrip(series: TimeSeries)
    requires SeriesSized(series) && |Serialize(SeriesFields(series))| < TWO_64
    ensures DecodeSeries(Serialize(SeriesFields(series))) == Some(View(series))
  {
    hide Serialize, LabelsFields, SeriesMerge, MergeAll, DecodeMessage, ValueBytes;
    var labels, value := LabelsFields(series.labels), ValueField(2, 4, series);
    var mid := EMPTY_SERIES.(labels := series.labels);
    LenOfAppend(labels, [value]);
    PayloadFits([value], 0);
    LabelsMerge(EMPTY_SERIES, series.labels);
    assert [] + series.labels == series.labels;
    NumberedAppend(labels, [value]);
    DecodeSerialized(EMPTY_SERIES, SeriesFields(series), SeriesMerge);
    MergeAppend(EMPTY_SERIES, labels, [value], SeriesMerge, mid);
    MergeOneField(mid, value, SeriesMerge);
    ValueMerges(mid, series);
  }

  lemma {:induction false} RequestMerges(all: seq<WireSeries>, batch: seq<TimeSeries>)
    requires BatchSized(batch) && |RequestBytes(batch)| < TWO_64
    ensures MergeAll(all, RequestFields(batch), RequestMerge) == Some(all + Views(batch))
    ensures Numbered(RequestFields(batch))
    decreases |batch|
  {
    hide SeriesFields, DecodeSeries, Serialize, MergeAll, Numbered, View;
    if batch == [] {
      assert all + Views(batch) == all;
      NoFields(all, RequestMerge);
    } else {
      var next := all + [View(batch[0])];
      var payload, rest := Serialize(SeriesFields(batch[0])), RequestFields(batch[1..]);
      ConsFits(1, payload, rest);
      SeriesRoundTrip(batch[0]);
      RequestMerges(next, batch[1..]);
      assert next + Views(batch[1..]) == all + Views(batch);
      MergeCons(all, BytesField(1, payload), rest, RequestMerge, next);
      NumberedCons(BytesField(1, payload), rest);
    }
  }

  /** The remote-write 1.0 round trip: a receiver decodes every byte of a request and gets
      each series' labels, timestamp and value or histogram back. */
  lemma RequestRoundTrip(batch: seq<TimeSeries>)
    requires BatchSized(batch) && |RequestBytes(batch)| < TWO_64
    ensures DecodeRequest(RequestBytes(batch)) == Some(Views(batch))
    ensures forall i | 0 <= i < |batch| :: Arrives(batch[i], DecodeRequest(RequestBytes(batch)).value[i])
  {
    hide Serialize, MergeAll, DecodeMessage, View, RequestFields, RequestMerge, Arrives;
    ViewsArrive(batch);
    RequestMerges([], batch);
    DecodeSerialized([], RequestFields(batch), RequestMerge);
    assert [] + Views(batch) == Views(batch);
  }
}
