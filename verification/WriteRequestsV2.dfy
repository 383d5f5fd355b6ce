/** Remote-write 2.0 requests: the bytes written and what a receiver reads back. */
module WriteRequestsV2 {
  import opened Basics
  import opened Model
  import opened Protobuf
  import opened WireMessages
  import opened WireDecoding
  import opened WriteRequests
  import opened SymbolTable

  // ----- fields written

  function SeriesV2Fields(refs: seq<u32>, series: TimeSeries): seq<Field>
    requires SeriesSized(series)
  {
    When(refs != [], BytesField(1, PackedVarints(refs))) + [ValueField(2, 3, series)]
  }

  function SymbolFields(symbols: seq<Text>): seq<Field> {
    if symbols == [] then [] else [BytesField(4, symbols[0])] + SymbolFields(symbols[1..])
  }

  /** The series of a batch, each taking two references per label off the flat stream. */
  function SeriesListFields(batch: seq<TimeSeries>, refs: seq<u32>): seq<Field>
    requires BatchSized(batch) && |refs| == |BatchTexts(batch)|
  {
    if batch == [] then []
    else
      var n := 2 * |batch[0].labels|;
      [BytesField(5, Serialize(SeriesV2Fields(refs[..n], batch[0])))] + SeriesListFields(batch[1..], refs[n..])
  }

  function RequestV2Fields(batch: seq<TimeSeries>): seq<Field>
    requires BatchSized(batch)
  {
    var (table, refs) := InternAll(BatchTexts(batch));
    SymbolFields(table.symbols) + SeriesListFields(batch, refs)
  }

  /** The bytes of a remote-write 2.0 request. */
  function RequestV2Bytes(batch: seq<TimeSeries>): seq<byte>
    requires BatchSized(batch)
  {
    Serialize(RequestV2Fields(batch))
  }

  // ----- what a receiver sees

  datatype WireSeriesV2 = WireSeriesV2(labelsRefs: seq<u32>, samples: seq<Sample>, histograms: seq<WireHistogram>)

  datatype WireRequestV2 = WireRequestV2(symbols: seq<Text>, timeseries: seq<WireSeriesV2>)

  const EMPTY_SERIES_V2 := WireSeriesV2([], [], [])

  function UInt32s(values: seq<u64>): (r: seq<u32>)
    ensures |r| == |values|
  {
    seq(|values|, i requires 0 <= i < |values| => UInt32(values[i]))
  }

  function SeriesV2Merge(w: WireSeriesV2, field: Field): Option<WireSeriesV2> {
    match field
    case BytesField(1, payload) =>
      (match ReadPackedVarints(payload)
       case None => None
       case Some(refs) => Some(w.(labelsRefs := w.labelsRefs + UInt32s(refs))))
    case VarintField(1, reference) => Some(w.(labelsRefs := w.labelsRefs + [UInt32(reference)]))
    case BytesField(2, payload) =>
      (match DecodeSample(payload)
       case None => None
       case Some(sample) => Some(w.(samples := w.samples + [sample])))
    case BytesField(3, payload) =>
      (match DecodeHistogram(payload)
       case None => None
       case Some(h) => Some(w.(histograms := w.histograms + [h])))
    case _ => if 1 <= field.num <= 3 then None else Some(w)
  }

  function DecodeSeriesV2(bytes: seq<byte>): Option<WireSeriesV2> {
    DecodeMessage(bytes, EMPTY_SERIES_V2, SeriesV2Merge)
  }

  function RequestV2Merge(w: WireRequestV2, field: Field): Option<WireRequestV2> {
    match field
    case BytesField(4, payload) => Some(w.(symbols := w.symbols + [payload]))
    case BytesField(5, payload) =>
      (match DecodeSeriesV2(payload)
       case None => None
       case Some(series) => Some(w.(timeseries := w.timeseries + [series])))
    case _ => if field.num == 4 || field.num == 5 then None else Some(w)
  }

  function DecodeRequestV2(bytes: seq<byte>): Option<WireRequestV2> {
    DecodeMessage(bytes, WireRequestV2([], []), RequestV2Merge)
  }

  /** Label pairs out of symbol references: an odd count or a reference past the table is malformed. */
  function ResolveRefs(symbols: seq<Text>, refs: seq<u32>): Option<seq<Label>> {
    if refs == [] then Some([])
    else if |refs| == 1 || refs[0] >= |symbols| || refs[1] >= |symbols| then None
    else
      match ResolveRefs(symbols, refs[2..])
      case None => None
      case Some(labels) => Some([Label(symbols[refs[0]], symbols[refs[1]])] + labels)
  }

  function ResolveSeries(symbols: seq<Text>, all: seq<WireSeriesV2>): Option<seq<WireSeries>> {
    if all == [] then Some([])
    else
      match ResolveRefs(symbols, all[0].labelsRefs)
      case None => None
      case Some(labels) =>
        match ResolveSeries(symbols, all[1..])
        case None => None
        case Some(rest) => Some([WireSeries(labels, all[0].samples, all[0].histograms)] + rest)
  }

  /** Decode a request and resolve its references. */
  function ReceiveV2(bytes: seq<byte>): Option<seq<WireSeries>> {
    match DecodeRequestV2(bytes)
    case None => None
    case Some(request) => ResolveSeries(request.symbols, request.timeseries)
  }

  // ----- round trip

  /** The view of a series with its references still unresolved. */
  function ViewV2(refs: seq<u32>, series: TimeSeries): WireSeriesV2 {
    var view := View(series);
    WireSeriesV2(refs, view.samples, view.histograms)
  }

  function ViewsV2(batch: seq<TimeSeries>, refs: seq<u32>): seq<WireSeriesV2>
    requires |refs| == |BatchTexts(batch)|
  {
    if batch == [] then []
    else
      var n := 2 * |batch[0].labels|;
      [ViewV2(refs[..n], batch[0])] + ViewsV2(batch[1..], refs[n..])
  }

  lemma {:induction false} SymbolsMerge(w: WireRequestV2, symbols: seq<Text>)
    ensures MergeAll(w, SymbolFields(symbols), RequestV2Merge) == Some(w.(symbols := w.symbols + symbols))
    ensures Numbered(SymbolFields(symbols))
    decreases |symbols|
  {
    if symbols == [] {
      assert w.symbols + symbols == w.symbols;
    } else {
      var fields := SymbolFields(symbols);
      assert fields[1..] == SymbolFields(symbols[1..]);
      SymbolsMerge(w.(symbols := w.symbols + [symbols[0]]), symbols[1..]);
      assert (w.symbols + [symbols[0]]) + symbols[1..] == w.symbols + symbols;
    }
  }

  lemma ValueMergesV2(w: WireSeriesV2, series: TimeSeries)
    requires SeriesSized(series) && |ValueBytes(series)| < TWO_64
    requires w.samples == [] && w.histograms == []
    ensures SeriesV2Merge(w, ValueField(2, 3, series)) == Some(ViewV2(w.labelsRefs, series))
  {
    hide HistogramFields, SampleFields, DecodeSample, DecodeHistogram;
    assert forall s: Sample :: [] + [s] == [s];
    assert forall h: WireHistogram :: [] + [h] == [h];
    if series.histogram.Some? {
      HistogramRoundTrip(series.histogram.value, series.sample.timestamp);
    } else {
      SampleRoundTrip(series.sample);
    }
  }

  lemma SeriesV2RoundTrip(refs: seq<u32>, series: TimeSeries)
    requires SeriesSized(series) && |Serialize(SeriesV2Fields(refs, series))| < TWO_64
    ensures DecodeSeriesV2(Serialize(SeriesV2Fields(refs, series))) == Some(ViewV2(refs, series))
  {
    hide Serialize, MergeAll, DecodeMessage, ValueBytes, PackedVarints, ReadPackedVarints, View;
    var packed, value := BytesField(1, PackedVarints(refs)), ValueField(2, 3, series);
    var labels := When(refs != [], packed);
    var mid := EMPTY_SERIES_V2.(labelsRefs := refs);
    LenOfAppend(labels, [value]);
    PayloadFits([value], 0);
    PackedVarintsRoundTrip(refs);
    assert [] + UInt32s(refs) == refs;
    MergeWhen(EMPTY_SERIES_V2, refs != [], packed, SeriesV2Merge);
    DecodeSerialized(EMPTY_SERIES_V2, SeriesV2Fields(refs, series), SeriesV2Merge);
    MergeAppend(EMPTY_SERIES_V2, labels, [value], SeriesV2Merge, mid);
    MergeOneField(mid, value, SeriesV2Merge);
    ValueMergesV2(mid, series);
  }

  lemma {:induction false} SeriesListMerges(w: WireRequestV2, batch: seq<TimeSeries>, refs: seq<u32>)
    requires BatchSized(batch) && |refs| == |BatchTexts(batch)|
    requires |Serialize(SeriesListFields(batch, refs))| < TWO_64
    ensures MergeAll(w, SeriesListFields(batch, refs), RequestV2Merge)
      == Some(w.(timeseries := w.timeseries + ViewsV2(batch, refs)))
    ensures Numbered(SeriesListFields(batch, refs))
    decreases |batch|
  {
    hide SeriesV2Fields, DecodeSeriesV2, ViewV2, ViewsV2, Texts, Serialize, MergeAll, Numbered, SeriesSized;
    if batch == [] {
      ViewsNone(batch, refs);
      assert w.timeseries + ViewsV2(batch, refs) == w.timeseries;
      NoFields(w, RequestV2Merge);
    } else {
      var n := 2 * |batch[0].labels|;
      var view := ViewV2(refs[..n], batch[0]);
      var next := w.(timeseries := w.timeseries + [view]);
      var payload, rest := Serialize(SeriesV2Fields(refs[..n], batch[0])), SeriesListFields(batch[1..], refs[n..]);
      ConsFits(5, payload, rest);
      SeriesMerges(w, refs[..n], batch[0]);
      SeriesListMerges(next, batch[1..], refs[n..]);
      ViewsCons(batch, refs);
      Regroup(w.timeseries, [view], ViewsV2(batch[1..], refs[n..]));
      MergeCons(w, BytesField(5, payload), rest, RequestV2Merge, next);
      NumberedCons(BytesField(5, payload), rest);
    }
  }

  lemma SeriesMerges(w: WireRequestV2, refs: seq<u32>, series: TimeSeries)
    requires SeriesSized(series) && |Serialize(SeriesV2Fields(refs, series))| < TWO_64
    ensures RequestV2Merge(w, BytesField(5, Serialize(SeriesV2Fields(refs, series))))
      == Some(w.(timeseries := w.timeseries + [ViewV2(refs, series)]))
  {
    hide SeriesV2Fields, DecodeSeriesV2, ViewV2, Serialize, SeriesSized;
    SeriesV2RoundTrip(refs, series);
  }

  lemma ViewsNone(batch: seq<TimeSeries>, refs: seq<u32>)
    requires batch == [] && |refs| == |BatchTexts(batch)|
    ensures ViewsV2(batch, refs) == []
  {
  }

  lemma ViewsCons(batch: seq<TimeSeries>, refs: seq<u32>)
    requires batch != [] && |refs| == |BatchTexts(batch)|
    ensures
      var n := 2 * |batch[0].labels|;
      && |refs| >= n && |refs[n..]| == |BatchTexts(batch[1..])|
      && ViewsV2(batch, refs) == [ViewV2(refs[..n], batch[0])] + ViewsV2(batch[1..], refs[n..])
  {
    hide ViewV2, Texts;
  }

  lemma {:induction false} ResolveLabels(symbols: seq<Text>, refs: seq<u32>, labels: seq<Label>)
    requires Resolves(symbols, refs, Texts(labels))
    ensures ResolveRefs(symbols, refs) == Some(labels)
  {
    hide Resolves, Texts;
    if labels == [] {
      ResolvesLength(symbols, refs, Texts([]));
    } else {
      var first := Texts([labels[0]]);
      TextsCons(labels);
      ResolvesLength(symbols, refs, Texts(labels));
      ResolvesSplit(symbols, refs, first, Texts(labels[1..]));
      ResolvesPair(symbols, refs[..2], first);
      ResolveLabels(symbols, refs[2..], labels[1..]);
      assert labels == [labels[0]] + labels[1..];
    }
  }

  lemma TextsCons(labels: seq<Label>)
    requires labels != []
    ensures Texts([labels[0]]) == [labels[0].name, labels[0].value]
    ensures Texts(labels) == Texts([labels[0]]) + Texts(labels[1..])
  {
    assert [labels[0]][1..] == [];
  }

  lemma ResolvesPair(symbols: seq<Text>, refs: seq<u32>, texts: seq<Text>)
    requires |texts| == 2 && Resolves(symbols, refs, texts)
    ensures |refs| == 2 && refs[0] < |symbols| && refs[1] < |symbols|
    ensures symbols[refs[0]] == texts[0] && symbols[refs[1]] == texts[1]
  {
  }

  lemma ResolvesSplit(symbols: seq<Text>, refs: seq<u32>, a: seq<Text>, b: seq<Text>)
    requires Resolves(symbols, refs, a + b)
    ensures Resolves(symbols, refs[..|a|], a) && Resolves(symbols, refs[|a|..], b)
  {
    assert forall p | 0 <= p < |a| :: (a + b)[p] == a[p];
    assert forall p | 0 <= p < |b| :: (a + b)[|a| + p] == b[p];
  }

  lemma {:induction false} ResolveViews(symbols: seq<Text>, batch: seq<TimeSeries>, refs: seq<u32>)
    requires Resolves(symbols, refs, BatchTexts(batch))
    ensures ResolveSeries(symbols, ViewsV2(batch, refs)) == Some(Views(batch))
  {
    hide View, ResolveRefs, Texts, Resolves;
    ResolvesLength(symbols, refs, BatchTexts(batch));
    if batch != [] {
      var n := 2 * |batch[0].labels|;
      ResolvesSplit(symbols, refs, Texts(batch[0].labels), BatchTexts(batch[1..]));
      ResolveLabels(symbols, refs[..n], batch[0].labels);
      ResolveViews(symbols, batch[1..], refs[n..]);
      ViewsHead(batch);
      ViewLabels(batch[0]);
      var views := ViewsV2(batch, refs);
      assert views[0] == ViewV2(refs[..n], batch[0]) && views[1..] == ViewsV2(batch[1..], refs[n..]);
    }
  }

  lemma ViewLabels(series: TimeSeries)
    ensures View(series).labels == series.labels
  {
  }

  lemma ResolvesLength(symbols: seq<Text>, refs: seq<u32>, texts: seq<Text>)
    requires Resolves(symbols, refs, texts)
    ensures |refs| == |texts|
  {
  }

  lemma ViewsHead(batch: seq<TimeSeries>)
    requires batch != []
    ensures Views(batch) == [View(batch[0])] + Views(batch[1..])
  {
    hide View;
  }

  lemma {:induction false} ResolvedLabels(symbols: seq<Text>, refs: seq<u32>, labels: seq<Label>)
    requires ResolveRefs(symbols, refs) == Some(labels)
    ensures Resolves(symbols, refs, Texts(labels))
  {
    hide Texts;
    if refs == [] {
      assert Texts(labels) == [];
    } else {
      var rest := ResolveRefs(symbols, refs[2..]).value;
      assert labels[1..] == rest;
      ResolvedLabels(symbols, refs[2..], rest);
      TextsCons(labels);
      assert refs == [refs[0], refs[1]] + refs[2..];
      ResolvesJoin(symbols, [refs[0], refs[1]], refs[2..], Texts([labels[0]]), Texts(rest));
    }
  }

  lemma ResolvesJoin(symbols: seq<Text>, refs: seq<u32>, more: seq<u32>, a: seq<Text>, b: seq<Text>)
    requires Resolves(symbols, refs, a) && Resolves(symbols, more, b)
    ensures Resolves(symbols, refs + more, a + b)
  {
  }

  lemma {:induction false} ResolvedViews(symbols: seq<Text>, batch: seq<TimeSeries>, refs: seq<u32>)
    requires |refs| == |BatchTexts(batch)|
    requires ResolveSeries(symbols, ViewsV2(batch, refs)) == Some(Views(batch))
    ensures Resolves(symbols, refs, BatchTexts(batch))
  {
    hide View, ResolveRefs, Texts, Resolves;
    if batch == [] {
      ResolvesNone(symbols, refs);
    } else {
      var n := 2 * |batch[0].labels|;
      ViewsHead(batch);
      ViewLabels(batch[0]);
      ViewsCons(batch, refs);
      var views := ViewsV2(batch, refs);
      assert views[0] == ViewV2(refs[..n], batch[0]) && views[1..] == ViewsV2(batch[1..], refs[n..]);
      assert Views(batch)[0] == View(batch[0]) && Views(batch)[1..] == Views(batch[1..]);
      ResolvedLabels(symbols, refs[..n], batch[0].labels);
      ResolvedViews(symbols, batch[1..], refs[n..]);
      assert refs == refs[..n] + refs[n..];
      ResolvesJoin(symbols, refs[..n], refs[n..], Texts(batch[0].labels), BatchTexts(batch[1..]));
    }
  }

  lemma ResolvesNone(symbols: seq<Text>, refs: seq<u32>)
    requires refs == []
    ensures Resolves(symbols, refs, [])
  {
  }

  /** The remote-write 2.0 round trip: a receiver decodes every byte, resolves every
      reference and gets each series' labels, timestamp and value or histogram back, exactly
      when the request has at most 2^32 symbols. */
  lemma RequestV2RoundTrip(batch: seq<TimeSeries>)
    requires BatchSized(batch) && |RequestV2Bytes(batch)| < TWO_64
    ensures ReceiveV2(RequestV2Bytes(batch)) == Some(Views(batch))
      <==> |InternAll(BatchTexts(batch)).0.symbols| <= TWO_32
    ensures |InternAll(BatchTexts(batch)).0.symbols| <= TWO_32 ==>
      forall i | 0 <= i < |batch| :: Arrives(batch[i], ReceiveV2(RequestV2Bytes(batch)).value[i])
  {
    hide Arrives, Views, BatchTexts, InternAll, Resolves, ResolveSeries, RequestV2Bytes, DecodeRequestV2;
    ViewsArrive(batch);
    var (table, refs) := InternAll(BatchTexts(batch));
    RequestV2Decodes(batch);
    ResolvesExactly(BatchTexts(batch));
    if Resolves(table.symbols, refs, BatchTexts(batch)) {
      ResolveViews(table.symbols, batch, refs);
    } else if ResolveSeries(table.symbols, ViewsV2(batch, refs)) == Some(Views(batch)) {
      ResolvedViews(table.symbols, batch, refs);
    }
  }

  /** Whatever the number of symbols, the table and the series with their references arrive. */
  lemma RequestV2Decodes(batch: seq<TimeSeries>)
    requires BatchSized(batch) && |RequestV2Bytes(batch)| < TWO_64
    ensures
      var (table, refs) := InternAll(BatchTexts(batch));
      DecodeRequestV2(RequestV2Bytes(batch)) == Some(WireRequestV2(table.symbols, ViewsV2(batch, refs)))
  {
    hide Serialize, MergeAll, SymbolFields, SeriesListFields, DecodeMessage, BatchTexts, InternAll;
    var (table, refs) := InternAll(BatchTexts(batch));
    var init := WireRequestV2([], []);
    var mid := WireRequestV2(table.symbols, []);
    var symbols, series := SymbolFields(table.symbols), SeriesListFields(batch, refs);
    LenOfAppend(symbols, series);
    SymbolsMerge(init, table.symbols);
    SeriesListMerges(mid, batch, refs);
    assert [] + table.symbols == table.symbols && [] + ViewsV2(batch, refs) == ViewsV2(batch, refs);
    NumberedAppend(symbols, series);
    DecodeSerialized(init, RequestV2Fields(batch), RequestV2Merge);
    MergeAppend(init, symbols, series, RequestV2Merge, mid);
  }
}
