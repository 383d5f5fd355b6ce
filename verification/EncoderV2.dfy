/** The single-pass remote-write 2.0 encoder (`src/remote_write.rs:435-560`). */
module EncoderV2 {
  import opened Basics
  import opened Model
  import opened WireScalars
  import opened Protobuf
  import opened WireMessages
  import opened WireDecoding
  import opened WriteRequests
  import opened SymbolTable
  import opened WriteRequestsV2
  import opened Encoders

  /** Buffers reused across batches. */
  class V2Scratch {
    var refs: seq<u32>
    var packedLens: seq<u32>

    constructor ()
      ensures refs == [] && packedLens == []
    {
      refs, packedLens := [], [];
    }
  }

  /** The references of each series of a batch, cut from the flat stream. */
  function RefsPerSeries(batch: seq<TimeSeries>, refs: seq<u32>): (r: seq<seq<u32>>)
    requires |refs| == |BatchTexts(batch)|
    ensures |r| == |batch|
  {
    if batch == [] then []
    else
      var n := 2 * |batch[0].labels|;
      [refs[..n]] + RefsPerSeries(batch[1..], refs[n..])
  }

  /** The plain interner's references, series by series. */
  function PlainRefs(batch: seq<TimeSeries>): (r: seq<seq<u32>>)
    ensures |r| == |batch|
  {
    RefsPerSeries(batch, InternAll(BatchTexts(batch)).1)
  }

  lemma {:induction false} RefsPerSeriesSnoc(
    batch: seq<TimeSeries>, refs: seq<u32>, series: TimeSeries, more: seq<u32>)
    requires |refs| == |BatchTexts(batch)| && |more| == 2 * |series.labels|
    ensures |refs + more| == |BatchTexts(batch + [series])|
    ensures RefsPerSeries(batch + [series], refs + more) == RefsPerSeries(batch, refs) + [more]
  {
    hide Texts;
    BatchTextsSnoc(batch, series);
    if batch == [] {
      assert batch + [series] == [series];
      assert [series][1..] == [] && refs + more == more && more[..|more|] == more;
    } else {
      hide RefsPerSeries, BatchTexts;
      var n := 2 * |batch[0].labels|;
      RefsCons(batch, refs);
      assert (batch + [series])[1..] == batch[1..] + [series] && (batch + [series])[0] == batch[0];
      assert (refs + more)[..n] == refs[..n] && (refs + more)[n..] == refs[n..] + more;
      RefsPerSeriesSnoc(batch[1..], refs[n..], series, more);
      RefsCons(batch + [series], refs + more);
      Regroup([refs[..n]], RefsPerSeries(batch[1..], refs[n..]), [more]);
    }
  }

  lemma RefsCons(batch: seq<TimeSeries>, refs: seq<u32>)
    requires batch != [] && |refs| == |BatchTexts(batch)|
    ensures
      var n := 2 * |batch[0].labels|;
      && |refs| >= n && |refs[n..]| == |BatchTexts(batch[1..])|
      && RefsPerSeries(batch, refs) == [refs[..n]] + RefsPerSeries(batch[1..], refs[n..])
  {
    hide Texts;
  }

  /** Pass 1's position: series before `i` done, `position` labels of series `i` done. */
  function TextsSoFar(batch: seq<TimeSeries>, i: nat, position: nat): seq<Text>
    requires i < |batch| && position <= |batch[i].labels|
  {
    BatchTexts(batch[..i]) + Texts(batch[i].labels[..position])
  }

  lemma TextsSoFarStep(batch: seq<TimeSeries>, i: nat, position: nat)
    requires i < |batch| && position < |batch[i].labels|
    ensures TextsSoFar(batch, i, position + 1) ==
      TextsSoFar(batch, i, position) + [batch[i].labels[position].name] + [batch[i].labels[position].value]
  {
    TakeSnoc(batch[i].labels, position);
    TextsSnoc(batch[i].labels[..position], batch[i].labels[position]);
  }

  /** Where the previous series' label at the same position sits in the stream. */
  lemma PreviousTexts(batch: seq<TimeSeries>, i: nat, position: nat)
    requires 0 < i < |batch| && position < |batch[i].labels| == |batch[i - 1].labels|
    ensures
      var prevBase := |BatchTexts(batch[..i])| - 2 * |batch[i].labels| + 2 * position;
      && 0 <= prevBase && prevBase + 1 < |BatchTexts(batch[..i])|
      && TextsSoFar(batch, i, position)[prevBase] == batch[i - 1].labels[position].name
      && TextsSoFar(batch, i, position)[prevBase + 1] == batch[i - 1].labels[position].value
  {
    assert batch[..i] == batch[..i - 1] + [batch[i - 1]];
    BatchTextsSnoc(batch[..i - 1], batch[i - 1]);
  }

  /** Interning one label, reusing the previous series' references where its strings match. */
  method InternLabel(
    batch: seq<TimeSeries>, i: nat, position: nat, table: Interner, refs: seq<u32>)
    returns (next: Interner, nameRef: u32, valueRef: u32)
    requires i < |batch| && position < |batch[i].labels|
    requires InternAll(TextsSoFar(batch, i, position)) == (table, refs)
    ensures InternAll(TextsSoFar(batch, i, position + 1)) == (next, refs + [nameRef] + [valueRef])
  {
    hide InternAll, Texts, BatchTexts;
    var labels := batch[i].labels;
    var base := |refs| - 2 * position;
    var reusedName: Option<u32>, reusedValue: Option<u32> := None, None;
    ghost var texts := TextsSoFar(batch, i, position);
    if i > 0 && |batch[i - 1].labels| == |labels| {
      PreviousTexts(batch, i, position);
      var previous := batch[i - 1].labels[position];
      var prevBase := base - 2 * |labels| + 2 * position;
      if previous.name == labels[position].name {
        reusedName := Some(refs[prevBase]);
        ReuseIsPlain(texts, prevBase, labels[position].name);
      }
      if previous.value == labels[position].value {
        reusedValue := Some(refs[prevBase + 1]);
        ReuseIsPlain(texts + [labels[position].name], prevBase + 1, labels[position].value);
      }
    }
    InternSnoc(texts, labels[position].name);
    InternSnoc(texts + [labels[position].name], labels[position].value);
    TextsSoFarStep(batch, i, position);
    next := table;
    if reusedName.Some? {
      nameRef := reusedName.value;
    } else {
      var interned := Intern(next, labels[position].name);
      next, nameRef := interned.0, interned.1;
    }
    if reusedValue.Some? {
      valueRef := reusedValue.value;
    } else {
      var interned := Intern(next, labels[position].value);
      next, valueRef := interned.0, interned.1;
    }
  }

  lemma {:induction false} PackedVarintsAppend(a: seq<u64>, b: seq<u64>)
    ensures PackedVarints(a + b) == PackedVarints(a) + PackedVarints(b)
  {
    hide Varint;
    if a == [] {
      assert a + b == b;
    } else {
      PackedVarintsAppend(a[1..], b);
      assert (a + b)[1..] == a[1..] + b && (a + b)[0] == a[0];
    }
  }

  lemma PackedPair(refs: seq<u32>, a: u32, b: u32)
    ensures |PackedVarints(refs + [a] + [b])| == |PackedVarints(refs)| + VarintLen(a) + VarintLen(b)
  {
    PackedVarintsAppend(refs + [a], [b]);
    PackedVarintsAppend(refs, [a]);
    assert PackedVarints([a]) == Varint(a) && PackedVarints([b]) == Varint(b);
  }

  /** Pass 1 over one series: its references, appended to the stream, and their packed size. */
  method CollectSeries(batch: seq<TimeSeries>, i: nat, table: Interner, refs: seq<u32>)
    returns (next: Interner, grown: seq<u32>, packed: nat)
    requires i < |batch| && InternAll(BatchTexts(batch[..i])) == (table, refs)
    ensures InternAll(BatchTexts(batch[..i + 1])) == (next, grown)
    ensures refs <= grown && |grown| == |refs| + 2 * |batch[i].labels|
    ensures packed == |PackedVarints(grown[|refs|..])|
  {
    hide InternAll, BatchTexts, Texts, PackedVarints;
    next, grown, packed := table, refs, 0;
    var labels := batch[i].labels;
    NoTexts(batch, i);
    ghost var mine: seq<u32> := [];
    for position := 0 to |labels|
      invariant InternAll(TextsSoFar(batch, i, position)) == (next, grown)
      invariant grown == refs + mine && |mine| == 2 * position
      invariant packed == |PackedVarints(mine)|
    {
      var nameRef, valueRef;
      next, nameRef, valueRef := InternLabel(batch, i, position, next, grown);
      PackedPair(mine, nameRef, valueRef);
      grown := grown + [nameRef] + [valueRef];
      mine := mine + [nameRef] + [valueRef];
      packed := packed + (VarintLen(nameRef) + VarintLen(valueRef));
    }
    assert labels[..|labels|] == labels;
    TakeSnoc(batch, i);
    BatchTextsSnoc(batch[..i], batch[i]);
  }

  lemma NoTexts(batch: seq<TimeSeries>, i: nat)
    requires i < |batch|
    ensures TextsSoFar(batch, i, 0) == BatchTexts(batch[..i])
    ensures PackedVarints([]) == []
  {
    assert batch[i].labels[..0] == [];
  }

  function PackedLens(refs: seq<seq<u32>>): (lens: seq<u32>)
    ensures |lens| == |refs|
  {
    seq(|refs|, k requires 0 <= k < |refs| => |PackedVarints(refs[k])| % TWO_32)
  }

  /** Pass 1: the symbol table, the flat reference stream and the packed sizes are those of
      the plain interner, for every batch. */
  method CollectRefs(batch: seq<TimeSeries>, scratch: V2Scratch) returns (symbols: seq<Text>)
    modifies scratch
    ensures symbols == InternAll(BatchTexts(batch)).0.symbols
    ensures scratch.refs == InternAll(BatchTexts(batch)).1
    ensures scratch.packedLens == PackedLens(PlainRefs(batch))
  {
    hide InternAll, BatchTexts, Texts, PackedVarints, RefsPerSeries;
    scratch.refs, scratch.packedLens := [], [];
    var table := EMPTY_INTERNER;
    NothingCollected(batch);
    for i := 0 to |batch|
      invariant InternAll(BatchTexts(batch[..i])) == (table, scratch.refs)
      invariant |scratch.refs| == |BatchTexts(batch[..i])|
      invariant scratch.packedLens == PackedLens(RefsPerSeries(batch[..i], scratch.refs))
    {
      var packed, grown;
      ghost var before := scratch.refs;
      table, grown, packed := CollectSeries(batch, i, table, scratch.refs);
      ghost var mine := grown[|before|..];
      assert grown == before + mine;
      TakeSnoc(batch, i);
      RefsPerSeriesSnoc(batch[..i], before, batch[i], mine);
      scratch.refs := grown;
      scratch.packedLens := scratch.packedLens + [packed % TWO_32];
    }
    assert batch[..|batch|] == batch;
    symbols := table.symbols;
  }

  lemma NothingCollected(batch: seq<TimeSeries>)
    ensures BatchTexts(batch[..0]) == [] && InternAll([]) == (EMPTY_INTERNER, [])
    ensures RefsPerSeries(batch[..0], []) == []
  {
    assert batch[..0] == [];
  }

  // ----- pass 2

  method WriteSymbols(symbols: seq<Text>, buf: Buffer)
    modifies buf
    ensures buf.bytes == old(buf.bytes) + Serialize(SymbolFields(symbols))
  {
    hide Serialize, FieldBytes;
    SerializeNothing();
    assert symbols[..0] == [];
    for i := 0 to |symbols|
      invariant buf.bytes == old(buf.bytes) + Serialize(SymbolFields(symbols[..i]))
    {
      buf.PutBytesField(0x22, symbols[i]);
      SymbolFieldsSnoc(symbols, i);
      TwoParts(old(buf.bytes), SymbolFields(symbols[..i]), [BytesField(4, symbols[i])]);
    }
    assert symbols[..|symbols|] == symbols;
  }

  lemma {:induction false} SymbolFieldsSnoc(symbols: seq<Text>, i: nat)
    requires i < |symbols|
    ensures SymbolFields(symbols[..i + 1]) == SymbolFields(symbols[..i]) + [BytesField(4, symbols[i])]
  {
    if i == 0 {
      assert symbols[..0] == [];
      var first: seq<Text> := [symbols[0]];
      assert first[1..] == [] && symbols[..1] == first;
    } else {
      SymbolFieldsSnoc(symbols[1..], i - 1);
      assert symbols[..i + 1][1..] == symbols[1..][..i] && symbols[..i][1..] == symbols[1..][..i - 1];
    }
  }

  /** The length prefix of a series, from what pass 1 cached as the packed size of its references. */
  function SeriesV2WireLen(refs: seq<u32>, packed: u32, series: TimeSeries): nat
    requires SeriesSized(series)
  {
    (if refs != [] then FramedLen(packed) else 0) + FramedLen(ValueWireLen(series))
  }

  /** The packed references after the cached size, omitted when there are none. */
  function WrittenRefs(refs: seq<u32>, packed: u32): seq<byte> {
    if refs == [] then [] else Header(1, packed) + PackedVarints(refs)
  }

  /** The bytes of one series, its two length prefixes taken from the cached size. */
  function WrittenSeries(refs: seq<u32>, packed: u32, series: TimeSeries): seq<byte>
    requires SeriesSized(series)
  {
    Header(5, SeriesV2WireLen(refs, packed, series))
      + (WrittenRefs(refs, packed) + Serialize([ValueField(2, 3, series)]))
  }

  method WriteRefs(refs: seq<u32>, packed: u32, buf: Buffer)
    modifies buf
    ensures buf.bytes == old(buf.bytes) + WrittenRefs(refs, packed)
  {
    hide Header, PackedVarints;
    if refs != [] {
      buf.PutHeader(0x0a, packed);
      WritePackedRefs(refs, buf);
      AppendAssociative(old(buf.bytes), Header(1, packed), PackedVarints(refs));
    }
  }

  /** One series of pass 2. */
  method WriteSeries(refs: seq<u32>, packed: u32, series: TimeSeries, buf: Buffer)
    requires SeriesSized(series)
    modifies buf
    ensures buf.bytes == old(buf.bytes) + WrittenSeries(refs, packed, series)
  {
    hide Serialize, Header, ValueField, SeriesSized, FramedLen, WrittenRefs, SeriesV2WireLen;
    var seriesLen := SeriesV2WireLen(refs, packed, series);
    ghost var header, packedRefs, value :=
      Header(5, seriesLen), WrittenRefs(refs, packed), Serialize([ValueField(2, 3, series)]);
    buf.PutHeader(0x2a, seriesLen);
    WriteRefs(refs, packed, buf);
    buf.PutValue(0x12, 0x1a, series);
    AppendAssociative(old(buf.bytes) + header, packedRefs, value);
    AppendAssociative(old(buf.bytes), header, packedRefs + value);
  }

  function RefsFields(refs: seq<u32>): seq<Field> {
    When(refs != [], BytesField(1, PackedVarints(refs)))
  }

  lemma WrittenRefsAreFields(refs: seq<u32>, packed: u32)
    requires packed == |PackedVarints(refs)|
    ensures WrittenRefs(refs, packed) == Serialize(RefsFields(refs))
  {
    hide Header, PackedVarints, FieldBytes;
    if refs != [] {
      SerializeOne(BytesField(1, PackedVarints(refs)));
      FieldIsFramed(1, PackedVarints(refs));
    }
  }

  /** With an exact size cached, a series is written as its framed field. */
  lemma WrittenSeriesIsField(refs: seq<u32>, packed: u32, series: TimeSeries)
    requires SeriesSized(series) && packed == |PackedVarints(refs)|
    ensures WrittenSeries(refs, packed, series) == FieldBytes(BytesField(5, Serialize(SeriesV2Fields(refs, series))))
  {
    hide Serialize, FieldBytes, Header, ValueField, SeriesSized, PackedVarints, FramedLen, WrittenRefs;
    SeriesV2Len(refs, series);
    WrittenRefsAreFields(refs, packed);
    SerializeAppend(RefsFields(refs), [ValueField(2, 3, series)]);
    FieldIsFramed(5, Serialize(SeriesV2Fields(refs, series)));
  }

  lemma FieldIsFramed(num: nat, payload: seq<byte>)
    ensures FieldBytes(BytesField(num, payload)) == Header(num, |payload|) + payload
  {
    AppendAssociative(Varint(Key(num, 2)), Varint(|payload| % TWO_64), payload);
  }

  /** The length prefix of a series, when the cached packed size is exact. */
  lemma SeriesV2Len(refs: seq<u32>, series: TimeSeries)
    requires SeriesSized(series)
    ensures |Serialize(SeriesV2Fields(refs, series))|
      == (if refs != [] then FramedLen(|PackedVarints(refs)|) else 0) + FramedLen(ValueWireLen(series))
  {
    LenOfAppend(When(refs != [], BytesField(1, PackedVarints(refs))), [ValueField(2, 3, series)]);
  }

  method WritePackedRefs(refs: seq<u32>, buf: Buffer)
    modifies buf
    ensures buf.bytes == old(buf.bytes) + PackedVarints(refs)
  {
    hide Varint;
    assert refs[..0] == [];
    for i := 0 to |refs|
      invariant buf.bytes == old(buf.bytes) + PackedVarints(refs[..i])
    {
      TakeSnoc(refs, i);
      PackedVarintsAppend(refs[..i], [refs[i]]);
      OneVarint(refs[i]);
      AppendAssociative(old(buf.bytes), PackedVarints(refs[..i]), Varint(refs[i]));
      buf.PutVarint(refs[i]);
    }
    assert refs[..|refs|] == refs;
  }

  lemma OneVarint(value: u64)
    ensures PackedVarints([value]) == Varint(value)
  {
    assert [value][1..] == [];
  }

  /** No packed references reach 4 GiB. */
  ghost predicate AllPackedFit(refs: seq<seq<u32>>) {
    forall k | 0 <= k < |refs| :: |PackedVarints(refs[k])| < TWO_32
  }

  ghost predicate PackedFit(batch: seq<TimeSeries>) {
    AllPackedFit(PlainRefs(batch))
  }

  /** The `u32` that caches a series' packed size is exact for all series exactly when none
      reaches 4 GiB. */
  lemma CacheIsExact(batch: seq<TimeSeries>)
    ensures PackedFit(batch) <==>
      forall k | 0 <= k < |batch| :: PackedLens(PlainRefs(batch))[k] == |PackedVarints(PlainRefs(batch)[k])|
  {
    hide PackedVarints, PlainRefs;
    var refs := PlainRefs(batch);
    assert forall k | 0 <= k < |refs| :: PackedLens(refs)[k] == |PackedVarints(refs[k])| % TWO_32;
  }

  lemma {:induction false} PackedBound(values: seq<u64>)
    ensures |PackedVarints(values)| <= 10 * |values|
  {
    if values != [] {
      var _ := VarintLen(values[0]);
      PackedBound(values[1..]);
    }
  }

  lemma {:induction false} RefsPerLabel(batch: seq<TimeSeries>, refs: seq<u32>, k: nat)
    requires |refs| == |BatchTexts(batch)| && k < |batch|
    ensures |RefsPerSeries(batch, refs)[k]| == 2 * |batch[k].labels|
  {
    if k > 0 {
      RefsPerLabel(batch[1..], refs[2 * |batch[0].labels|..], k - 1);
    }
  }

  /** Series with fewer than 2^32 / 20 labels, as all parsed series, cannot break the cache. */
  lemma FewLabelsFit(batch: seq<TimeSeries>)
    requires forall k | 0 <= k < |batch| :: 20 * |batch[k].labels| < TWO_32
    ensures PackedFit(batch)
  {
    hide BatchTexts, InternAll;
    forall k | 0 <= k < |batch|
      ensures |PackedVarints(PlainRefs(batch)[k])| < TWO_32
    {
      RefsPerLabel(batch, InternAll(BatchTexts(batch)).1, k);
      PackedBound(PlainRefs(batch)[k]);
    }
  }

  /** The bytes of all series, references taken off the flat stream and sizes off the cache. */
  function WrittenBatch(batch: seq<TimeSeries>, refs: seq<u32>, lens: seq<u32>): seq<byte>
    requires BatchSized(batch) && |refs| == |BatchTexts(batch)| && |lens| == |batch|
  {
    if batch == [] then []
    else
      var n := 2 * |batch[0].labels|;
      WrittenSeries(refs[..n], lens[0], batch[0]) + WrittenBatch(batch[1..], refs[n..], lens[1..])
  }

  lemma WrittenBatchStep(batch: seq<TimeSeries>, refs: seq<u32>, lens: seq<u32>, i: nat, offset: nat)
    requires BatchSized(batch) && |lens| == |batch| && i < |batch| && offset <= |refs|
    requires |refs| - offset == |BatchTexts(batch[i..])|
    ensures
      var next := offset + 2 * |batch[i].labels|;
      && next <= |refs| && |refs| - next == |BatchTexts(batch[i + 1..])|
      && WrittenBatch(batch[i..], refs[offset..], lens[i..]) ==
          WrittenSeries(refs[offset..next], lens[i], batch[i])
          + WrittenBatch(batch[i + 1..], refs[next..], lens[i + 1..])
  {
    hide Texts, WrittenSeries, SeriesSized;
    var next := offset + 2 * |batch[i].labels|;
    assert batch[i..][1..] == batch[i + 1..] && batch[i..][0] == batch[i] && lens[i..][1..] == lens[i + 1..];
    assert BatchTexts(batch[i..]) == Texts(batch[i].labels) + BatchTexts(batch[i + 1..]);
    assert refs[offset..][..next - offset] == refs[offset..next] && refs[offset..][next - offset..] == refs[next..];
  }

  /** Pass 2: every series after its length prefix. */
  method WriteAllSeries(batch: seq<TimeSeries>, buf: Buffer, scratch: V2Scratch)
    requires BatchSized(batch) && |scratch.refs| == |BatchTexts(batch)| && |scratch.packedLens| == |batch|
    modifies buf
    ensures buf.bytes == old(buf.bytes) + WrittenBatch(batch, scratch.refs, scratch.packedLens)
  {
    hide WrittenBatch, WrittenSeries, BatchTexts, SeriesSized;
    ghost var all := old(buf.bytes) + WrittenBatch(batch, scratch.refs, scratch.packedLens);
    assert batch[0..] == batch && scratch.refs[0..] == scratch.refs && scratch.packedLens[0..] == scratch.packedLens;
    var offset := 0;
    for i := 0 to |batch|
      invariant offset <= |scratch.refs| && |scratch.refs| - offset == |BatchTexts(batch[i..])|
      invariant buf.bytes + WrittenBatch(batch[i..], scratch.refs[offset..], scratch.packedLens[i..]) == all
    {
      WrittenBatchStep(batch, scratch.refs, scratch.packedLens, i, offset);
      ghost var before := buf.bytes;
      var refs := scratch.refs[offset..offset + 2 * |batch[i].labels|];
      WriteSeries(refs, scratch.packedLens[i], batch[i], buf);
      offset := offset + |refs|;
      AppendAssociative(
        before, WrittenSeries(refs, scratch.packedLens[i], batch[i]),
        WrittenBatch(batch[i + 1..], scratch.refs[offset..], scratch.packedLens[i + 1..]));
    }
    NothingWritten(batch[|batch|..], scratch.refs[offset..], scratch.packedLens[|batch|..]);
    assert buf.bytes + [] == buf.bytes;
  }

  lemma NothingWritten(batch: seq<TimeSeries>, refs: seq<u32>, lens: seq<u32>)
    requires batch == [] && |refs| == |BatchTexts(batch)| && |lens| == |batch|
    ensures WrittenBatch(batch, refs, lens) == []
  {
  }

  /** What a batch is encoded to: the symbols, then the series. */
  ghost function WrittenRequest(batch: seq<TimeSeries>): seq<byte>
    requires BatchSized(batch)
  {
    var (table, refs) := InternAll(BatchTexts(batch));
    Serialize(SymbolFields(table.symbols)) + WrittenBatch(batch, refs, PackedLens(PlainRefs(batch)))
  }

  /** `encode_v2_into`: append the batch, leaving what the buffer held in place. */
  method EncodeRequestV2(batch: seq<TimeSeries>, buf: Buffer, scratch: V2Scratch)
    requires BatchSized(batch)
    modifies buf, scratch
    ensures scratch.refs == InternAll(BatchTexts(batch)).1
    ensures scratch.packedLens == PackedLens(PlainRefs(batch))
    ensures buf.bytes == old(buf.bytes) + WrittenRequest(batch)
    ensures PackedFit(batch) ==> buf.bytes == old(buf.bytes) + RequestV2Bytes(batch)
  {
    hide InternAll, BatchTexts, Serialize, SymbolFields, PackedLens, PlainRefs, PackedFit, SeriesSized, WrittenBatch,
      RequestV2Bytes;
    var symbols := CollectRefs(batch, scratch);
    WriteSymbols(symbols, buf);
    WriteAllSeries(batch, buf, scratch);
    AppendAssociative(
      old(buf.bytes), Serialize(SymbolFields(symbols)), WrittenBatch(batch, scratch.refs, scratch.packedLens));
    if PackedFit(batch) {
      FitIsRequest(batch);
    }
  }

  // ----- the bytes are the request exactly when the cache is exact

  /** Whatever follows them, framed bytes with different length prefixes differ. */
  lemma HeadersDiffer(num: nat, a: nat, b: nat, x: seq<byte>, y: seq<byte>)
    requires a < TWO_64 && b < TWO_64 && a != b
    ensures Header(num, a) + x != Header(num, b) + y
  {
    hide Varint, ReadVarint;
    var key := Varint(Key(num, 2));
    AppendAssociative(key, Varint(a), x);
    AppendAssociative(key, Varint(b), y);
    VarintRoundTrip(a, x);
    VarintRoundTrip(b, y);
    assert (key + (Varint(a) + x))[|key|..] == Varint(a) + x;
    assert (key + (Varint(b) + y))[|key|..] == Varint(b) + y;
  }

  /** A truncated size shows in the series' own length prefix. */
  lemma TruncationShows(refs: seq<u32>, packed: u32, series: TimeSeries, x: seq<byte>, y: seq<byte>)
    requires SeriesSized(series) && |Serialize(SeriesV2Fields(refs, series))| < TWO_64
    requires packed == |PackedVarints(refs)| % TWO_32 && |PackedVarints(refs)| >= TWO_32
    ensures WrittenSeries(refs, packed, series) + x
      != FieldBytes(BytesField(5, Serialize(SeriesV2Fields(refs, series)))) + y
  {
    hide Serialize, FieldBytes, Header, ValueField, SeriesSized, PackedVarints, WrittenRefs, SeriesV2Fields,
      SeriesV2WireLen;
    var payload := Serialize(SeriesV2Fields(refs, series));
    var len := SeriesV2WireLen(refs, packed, series);
    var written := WrittenRefs(refs, packed) + Serialize([ValueField(2, 3, series)]);
    TruncatedLen(refs, packed, series);
    FieldIsFramed(5, payload);
    HeadersDiffer(5, len, |payload|, written + x, payload + y);
    AppendAssociative(Header(5, len), written, x);
    AppendAssociative(Header(5, |payload|), payload, y);
  }

  lemma TruncatedLen(refs: seq<u32>, packed: u32, series: TimeSeries)
    requires SeriesSized(series)
    requires packed == |PackedVarints(refs)| % TWO_32 && |PackedVarints(refs)| >= TWO_32
    ensures SeriesV2WireLen(refs, packed, series) < |Serialize(SeriesV2Fields(refs, series))|
  {
    hide Serialize, SeriesSized, PackedVarints, FramedLen, SeriesV2Fields;
    SeriesV2Len(refs, series);
    NoRefs();
    ShorterFrame(packed, |PackedVarints(refs)|);
  }

  lemma NoRefs()
    ensures PackedVarints([]) == []
  {
  }

  lemma ShorterFrame(short: nat, long: nat)
    requires short + TWO_32 <= long
    ensures FramedLen(short) < FramedLen(long)
  {
    var _ := VarintLen(short % TWO_64);
    var _ := VarintLen(long % TWO_64);
  }

  lemma {:induction false} BatchExactly(batch: seq<TimeSeries>, refs: seq<u32>)
    requires BatchSized(batch) && |refs| == |BatchTexts(batch)|
    requires |Serialize(SeriesListFields(batch, refs))| < TWO_64
    ensures
      WrittenBatch(batch, refs, PackedLens(RefsPerSeries(batch, refs))) == Serialize(SeriesListFields(batch, refs)) <==>
        AllPackedFit(RefsPerSeries(batch, refs))
    decreases |batch|
  {
    hide Serialize, SeriesV2Fields, PackedVarints, WrittenSeries, Texts, SeriesSized, AllPackedFit, FieldBytes;
    if batch == [] {
      NothingFitsIn();
    } else {
      var n := 2 * |batch[0].labels|;
      var first, rest, per := refs[..n], refs[n..], RefsPerSeries(batch, refs);
      var payload, tail := Serialize(SeriesV2Fields(first, batch[0])), SeriesListFields(batch[1..], rest);
      var lens := PackedLens(per);
      ConsFits(5, payload, tail);
      SerializeCons(BytesField(5, payload), tail);
      BatchExactly(batch[1..], rest);
      FitCons(first, RefsPerSeries(batch[1..], rest));
      assert lens[1..] == PackedLens(RefsPerSeries(batch[1..], rest));
      if |PackedVarints(first)| < TWO_32 {
        WrittenSeriesIsField(first, lens[0], batch[0]);
        Cancel(FieldBytes(BytesField(5, payload)), WrittenBatch(batch[1..], rest, lens[1..]), Serialize(tail));
      } else {
        TruncationShows(first, lens[0], batch[0], WrittenBatch(batch[1..], rest, lens[1..]), Serialize(tail));
      }
    }
  }

  lemma NothingFitsIn()
    ensures AllPackedFit([]) && Serialize([]) == []
  {
  }

  lemma SerializeCons(field: Field, rest: seq<Field>)
    ensures Serialize([field] + rest) == FieldBytes(field) + Serialize(rest)
  {
    hide FieldBytes;
    assert ([field] + rest)[1..] == rest;
  }

  lemma FitCons(first: seq<u32>, rest: seq<seq<u32>>)
    ensures AllPackedFit([first] + rest) <==> |PackedVarints(first)| < TWO_32 && AllPackedFit(rest)
  {
    hide PackedVarints;
    var all := [first] + rest;
    assert all[0] == first && forall k | 0 <= k < |rest| :: all[k + 1] == rest[k];
  }

  lemma Cancel(a: seq<byte>, x: seq<byte>, y: seq<byte>)
    ensures a + x == a + y <==> x == y
  {
    assert (a + x)[|a|..] == x && (a + y)[|a|..] == y;
  }

  lemma {:induction false} FitBatch(batch: seq<TimeSeries>, refs: seq<u32>)
    requires BatchSized(batch) && |refs| == |BatchTexts(batch)|
    requires AllPackedFit(RefsPerSeries(batch, refs))
    ensures WrittenBatch(batch, refs, PackedLens(RefsPerSeries(batch, refs)))
      == Serialize(SeriesListFields(batch, refs))
    decreases |batch|
  {
    hide Serialize, SeriesV2Fields, PackedVarints, WrittenSeries, Texts, SeriesSized, AllPackedFit, FieldBytes;
    if batch == [] {
      NothingFitsIn();
    } else {
      var n := 2 * |batch[0].labels|;
      var first, rest, per := refs[..n], refs[n..], RefsPerSeries(batch, refs);
      var payload, tail := Serialize(SeriesV2Fields(first, batch[0])), SeriesListFields(batch[1..], rest);
      SerializeCons(BytesField(5, payload), tail);
      FitCons(first, RefsPerSeries(batch[1..], rest));
      FitBatch(batch[1..], rest);
      assert PackedLens(per)[1..] == PackedLens(RefsPerSeries(batch[1..], rest));
      WrittenSeriesIsField(first, PackedLens(per)[0], batch[0]);
    }
  }

  lemma FitIsRequest(batch: seq<TimeSeries>)
    requires BatchSized(batch) && PackedFit(batch)
    ensures WrittenRequest(batch) == RequestV2Bytes(batch)
  {
    hide InternAll, BatchTexts, Serialize, SymbolFields, SeriesListFields, PackedLens, RefsPerSeries, AllPackedFit,
      SeriesSized, WrittenBatch;
    var (table, refs) := InternAll(BatchTexts(batch));
    FitBatch(batch, refs);
    SerializeAppend(SymbolFields(table.symbols), SeriesListFields(batch, refs));
  }

  /** What is written is the request exactly when every packed size fits its `u32` cache, and
      so when every cached size is the true one. */
  lemma WrittenExactly(batch: seq<TimeSeries>)
    requires BatchSized(batch) && |RequestV2Bytes(batch)| < TWO_64
    ensures WrittenRequest(batch) == RequestV2Bytes(batch) <==> PackedFit(batch)
    ensures PackedFit(batch) <==>
      forall k | 0 <= k < |batch| :: PackedLens(PlainRefs(batch))[k] == |PackedVarints(PlainRefs(batch)[k])|
  {
    hide InternAll, BatchTexts, Serialize, SymbolFields, SeriesListFields, PackedLens, RefsPerSeries, AllPackedFit,
      SeriesSized, WrittenBatch;
    CacheIsExact(batch);
    var (table, refs) := InternAll(BatchTexts(batch));
    var symbols, series := SymbolFields(table.symbols), SeriesListFields(batch, refs);
    SerializeAppend(symbols, series);
    BatchExactly(batch, refs);
    Cancel(
      Serialize(symbols), WrittenBatch(batch, refs, PackedLens(RefsPerSeries(batch, refs))), Serialize(series));
  }
}
