# Verified model of the metrics pipeline

This project models, in Dafny, what the scraping agent does between an exposition body and a
remote-write request, and proves what that path promises. It follows the source files:

- **Native histograms** (`src/protobuf.rs`): `BucketLayout`, `Rebucketing`, `SideReduction`,
  `NativeHistograms`, `HistogramConversion`, `ResolutionTheorems`, `ConversionWitnesses`. Span and
  delta validation, merging buckets into coarser schemas of the Prometheus Native Histograms
  specification (section "Schema"), the cap at schema 8 and the bucket limit loop.
  `ExposedHistograms` says what is accepted and carried over, `FloatHistograms` which counts are added
  up in a float histogram, and `ConvertedHistograms` joins the conversion to the encoders below.
- **Remote-write encoders** (`src/model.rs`, `src/remote_write.rs`): `WireScalars`, `Protobuf`,
  `WireMessages`, `WireDecoding`, `WriteRequests`, `Encoders` for Remote-Write 1.0; `SymbolTable`,
  `WriteRequestsV2`, `EncoderV2` for 2.0. The decoders are written from the Protocol Buffers encoding
  guide and the message definitions, not from the encoders; `WireBytes` gives every message byte by byte.
- **Text format** (`src/parser.rs`): `ExpositionText` is the format as functions, `ExpositionParser` the
  cursor parser proved equal to it. `ExpositionGrammar` (with `Names`) is the grammar of bodies, blanks,
  comments and line ends included; `ExpositionRoundTrip` and `ExpositionAcceptance` prove that exactly its
  bodies are accepted, with exactly its meaning. `ExpositionLaws` is about identities and cut bodies.
- **Labels** (`src/relabel.rs`, the label functions of `src/scrape.rs`): `LabelLists`, `Patterns`,
  `Relabel`, `RelabelSets`, `LabelPipeline`, `ScrapedLabels`; `RelabelOutcomes` says what each action does.
- **Staleness** (`src/scrape.rs`): `StalenessModel` and `StalenessTheorems` state it over whole runs,
  `HashSets` and `StalenessTracker` are the tracker and the scrape loop in place, `TextStaleness`
  joins it to the text parser.
- **Sender** (`src/remote_write.rs`): `SenderModel` is the task as a state machine whose steps end at
  the await points, so that scrape loops can offer batches in between; `SenderTheorems` holds in every
  run, `SenderOutcomes` says what each event does and how a batch ends; `RemoteWrite` is the handle and
  the task in place, proved to follow the machine.
- **Sizes and durations** (`src/config.rs`): `Decimals`, `Durations`, `Sizes`, `SizeTheorems`, `UnitTables`.

`Basics`, `Ascii` and `Model` hold the shared types. Text is a sequence of bytes, doubles are their bit
patterns, machine integers are bounded types. Arithmetic is that of a release build, which does not
check overflow: `i64` additions wrap and a shift amount is taken modulo 64 (a debug build would panic
there instead). A method that loops in the source loops here and is proved against a function; the
theorems are about the functions.

`dafny verify dfyconfig.toml` checks the whole project.

## Where the code differs from what it says

- The cap at schema 8 shifts by `schema - 8` without an upper bound on the schema
  (`src/protobuf.rs:551`, `src/protobuf.rs:635`). From schema 72 on the shift amount wraps and buckets
  that belong together may stay apart: `ConversionWitnesses.SchemaSeventyTwoIsNotReduced`, and exactly
  when it is harmless `ResolutionTheorems.MaskedShiftIsRight`.
- A merged count that leaves `i64` wraps (`src/protobuf.rs:705`), and the conversion can emit a
  histogram that its own validation rejects: `ConversionWitnesses.OverflowIsEmitted`. The reduced
  distribution is right exactly when no merged count leaves `i64`: `SideReduction.MeaningIsKeptExactly`
  and, for the whole conversion, `ResolutionTheorems.ConversionPreservesMeaning`.
- "The target label wins" (`src/scrape.rs:921`) fails when one target label is called
  `exported_<name>` and a later one `<name>`: the scraped `<name>` is moved over the former, on lines
  that really parse (`ScrapedLabels.TargetLosesOnALine`). `LabelPipeline.TargetsWinExactly` is the exact
  condition on the target labels.
- "Digits past the 19th cannot move a `u64` byte count" (`src/config.rs:763`) is false from `MiB` on:
  `0.00000000000000000087EiB` is worth one byte and parses to none (`SizeTheorems.LostByteParses`).
  `SizeTheorems.TruncationIsExact` is the exact condition.
- The cached packed size of a series' references is a truncating cast to `u32`
  (`src/remote_write.rs:521`): the request is the intended one exactly when every size fits
  (`EncoderV2.WrittenExactly`), which for series with fewer than 2^32 / 20 labels it does
  (`EncoderV2.FewLabelsFit`).
- `-0.0` is skipped like `0.0` on the wire, the identity hash never travels, and `sample.value` does
  not travel beside a histogram: `WriteRequests.Arrives` says so for both protocols.

## Model

| member | source | states |
|---|---|---|
| `BucketLayout.EncodeRoundTrip` | src/protobuf.rs:702-727 | run-length spans decode back to the bucket indices they were built from, for every index sequence |
| `BucketLayout.CanonicalRoundTrip` | src/protobuf.rs:702-727 | encoding inverts decoding on maximal-run span lists |
| `Rebucketing.TargetBound` | src/protobuf.rs:676-679 | a fine index lands at or below coarse bucket `k` exactly when it is at most `k * 2^shift`, negative indices included |
| `Rebucketing.FineInsideCoarse` | src/protobuf.rs:676-679 | each fine bucket lies inside its coarse bucket |
| `Rebucketing.TargetRange` | src/protobuf.rs:676-679 | targets of `i32` indices stay in `i32`, and from shift 1 on within 2^30 of zero |
| `Rebucketing.MergedGapsFit` | src/protobuf.rs:714-727 | every increasing `i32` layout merged at shift >= 1 has gaps that fit `i32`: neither range error can be reached |
| `Rebucketing.MergedCountsCompose` | src/protobuf.rs:695-732 | merging by `a` and then by `b` gives the counts of merging once by `a + b`, for any associative count type |
| `Rebucketing.MergePreservesMeaning` | src/protobuf.rs:701-707 | the sum of the counts at indices <= `k * 2^shift` before equals the sum at indices <= `k` after, for every integer `k` |
| `Rebucketing.MergePreservesTotal` | src/protobuf.rs:701-707 | the total count is conserved |
| `Rebucketing.MergedWraps` | src/protobuf.rs:703-706 | merged `i64` counts are the true merged counts modulo 2^64, whatever overflows on the way |
| `SideReduction.AbsoluteOfDeltas` | src/protobuf.rs:652-665 | decoding re-encoded deltas gives the merged counts back, wrap-around included |
| `SideReduction.ValidSpansLayout` | src/protobuf.rs:599-613 | accepted spans, zero-length ones included, lay out strictly increasing indices inside `i32` |
| `SideReduction.ValidCounts` | src/protobuf.rs:619-627 | deltas are accepted if and only if every running count is between 0 and 2^63 - 1 |
| `SideReduction.MergedLayoutIsValid` | src/protobuf.rs:586-629 | what a merge lays out is accepted by the side validation again and canonical: maximal runs, no empty span, positive offsets after the first |
| `SideReduction.MergedSpansFit` | src/protobuf.rs:708-711 | at shift >= 1 no merged span length reaches 2^32, so the `u32` increment cannot wrap |
| `SideReduction.LargestGap` | src/protobuf.rs:714-720 | the bound is tight: the widest accepted layout, with an empty span in its gap, merges at shift 1 to the largest `i32` offset |
| `SideReduction.ReductionComposes` | src/protobuf.rs:649-665 | two reductions of an integer side are one: same spans, same deltas, bit for bit |
| `SideReduction.ReductionLayoutComposes` | src/protobuf.rs:666-669 | for float counts the spans still compose |
| `SideReduction.ReductionExactness` | src/protobuf.rs:653-665 | decoded reduced counts equal the true merged counts if and only if each true count fits `i64` |
| `SideReduction.ReductionPreservesMeaning` | src/protobuf.rs:634-674 | an accepted integer side none of whose merged counts leaves `i64` keeps its cumulative counts at every coarse bound and its total, and is accepted again |
| `SideReduction.MeaningIsKeptExactly` | src/protobuf.rs:701-706 | the reduced side has the fine cumulative counts at every coarse bound and the same total if and only if no merged count leaves `i64` |
| `SideReduction.SmallTotalFits` | src/protobuf.rs:701-706 | a side whose total fits `i64` can be merged at any shift |
| `NativeHistograms.MergeLoopMeaning` | src/protobuf.rs:695-732 | the merge loop computes the run-length encoded merged layout and the merged counts, or stops for exactly the reason that applies |
| `NativeHistograms.MergeOutcome` | src/protobuf.rs:680-734 | with as many counts as buckets the merge fails if and only if a merged gap does not fit `i32` |
| `NativeHistograms.MergeBuckets` | src/protobuf.rs:680-734 | the nested loops with running `index` and `last` are the merge of the laid-out indices |
| `NativeHistograms.ValidateSpans` | src/protobuf.rs:596-613 | the span loop reports the first fault and otherwise the number of buckets laid out |
| `NativeHistograms.ValidateCounts` | src/protobuf.rs:619-627 | the delta loop reports the first overflow or negative count |
| `NativeHistograms.ValidateSide` | src/protobuf.rs:590-629 | span faults first, then a bucket count mismatch, then count faults |
| `NativeHistograms.DecodeDeltas` | src/protobuf.rs:652-657 | the decoding loop yields the running sums |
| `NativeHistograms.EncodeDeltas` | src/protobuf.rs:660-665 | the encoding loop yields the deltas of the counts |
| `NativeHistograms.ReductionAlwaysFits` | src/protobuf.rs:634-674 | reducing an accepted side by at least one schema never fails |
| `NativeHistograms.ReduceSide` | src/protobuf.rs:636-671 | one side is reduced to its merged layout, integer and float sides alike, and fails exactly when a gap does not fit |
| `HistogramConversion.FitsIffCoarsestFits` | src/protobuf.rs:554-568 | some schema down to -4 fits the bucket limit if and only if schema -4 does |
| `HistogramConversion.StepsLayout` | src/protobuf.rs:555-567 | `k` steps of the limit loop lay out the buckets of one reduction by `k` |
| `HistogramConversion.StepsAreOneShot` | src/protobuf.rs:555-567 | for integer histograms `k` steps are one reduction by `k`: same spans, same deltas |
| `HistogramConversion.StepsSpansAreOneShot` | src/protobuf.rs:555-567 | for any histogram `k` steps leave the spans of one reduction by `k` |
| `HistogramConversion.BucketsAtSchemaShrinks` | src/protobuf.rs:555-567 | the number of buckets never grows as the schema gets coarser |
| `HistogramConversion.NativeHistogram.ReduceResolution` | src/protobuf.rs:634-674 | in place: both sides reduced and the schema set, or an error exactly when a merged gap does not fit |
| `HistogramConversion.NativeHistogram.LimitBuckets` | src/protobuf.rs:554-568 | the loop stops at the finest schema whose buckets fit the limit and fails exactly when schema -4 does not fit; it terminates |
| `HistogramConversion.Convert` | src/protobuf.rs:482-570 | rejections in order; otherwise capped at schema 8 and reduced to the finest schema at or below that fits the limit, or too many buckets even at -4 |
| `ResolutionTheorems.MaskedShiftIsRight` | src/protobuf.rs:635-701 | with the shift amount masked to six bits every accepted layout merges as intended if and only if the shift is below 64 or still reads 32 or more modulo 64 |
| `ConversionWitnesses.SchemaSeventyTwoIsNotReduced` | src/protobuf.rs:551-553 | an accepted histogram exposed at schema 72 is converted to schema 8 with nothing merged, although a reduction by 64 puts its two buckets into one |
| `ConversionWitnesses.OverflowIsEmitted` | src/protobuf.rs:555-567 | an accepted histogram with two counts of 2^63 - 1, under a limit of one bucket, is converted to one with the count -2, which the validation rejects |
| `ResolutionTheorems.ConversionIsOneShot` | src/protobuf.rs:551-568 | cap and limit loop together equal one reduction from the exposed schema to the resulting one, for integer histograms |
| `ResolutionTheorems.ConversionPreservesMeaning` | src/protobuf.rs:551-569 | each side of the converted histogram has the exposed cumulative counts at every coarse bound if and only if no merged count at the resulting schema leaves `i64`, whatever wrapped on the way, and then it is valid again |
| `FloatHistograms.MergedCountsAddUp` | src/protobuf.rs:695-707 | every merged count is the sum, added up from left to right, of exactly the counts whose indices its bucket covers, for any addition, and every bucket that covers a count is there |
| `FloatHistograms.FloatCountsAddUp` | src/protobuf.rs:666-669 | a reduced float side holds in every coarse bucket the sum of exactly the fine counts it covers, added up from left to right |
| `FloatHistograms.ReducedHolds` | src/protobuf.rs:666-669 | as long as additions of the counts are exact, a reduced float side holds the exact merged counts |
| `FloatHistograms.FloatConversionPreservesMeaning` | src/protobuf.rs:551-569 | float histograms whose counts add exactly, as integers up to 2^53 do, keep each side's cumulative counts at every coarse bound and its total through cap and limit loop |
| `ExposedHistograms.SpansAcceptedExactly` | src/protobuf.rs:599-613 | spans are accepted if and only if none after the first goes back and every index, that of an empty span included, fits `i32` |
| `ExposedHistograms.AcceptedExactly` | src/protobuf.rs:487-549 | an exposed histogram is accepted if and only if its schema is at least -4 and each side covers as many buckets as it has counts, with partial sums of its deltas in the non-negative `i64` range |
| `ExposedHistograms.BaseCarries` | src/protobuf.rs:504-536 | count, sum, threshold, zero count, spans and the deltas or float counts are the exposed ones, a missing scalar counting as zero; a histogram is float as soon as a float count is positive |
| `ExposedHistograms.ConvertedCarries` | src/protobuf.rs:513-570 | whatever was reduced, the result has the exposed count, sum, threshold, zero count and kind, and without a reduction the exposed sides |
| `ExposedHistograms.ResultSchema` | src/protobuf.rs:551-569 | the result is at the finest schema from 8 down to -4, and no finer than exposed, whose buckets fit the limit; limit 0 only caps |
| `ExposedHistograms.TooManyBucketsExactly` | src/protobuf.rs:551-568 | conversion of an accepted histogram fails if and only if there is a limit and the layout exceeds it at schema -4 |
| `WireScalars.VarintLen` | src/model.rs:354-357 | the closed form is the number of bytes the varint loop writes, 1 to 10 |
| `WireScalars.VarintRoundTrip` | src/model.rs:363-369 | decoding inverts encoding for every `u64`, whatever bytes follow |
| `WireScalars.ZigZagBijection` | src/model.rs:429-432 | zigzag is a bijection between `i64` and `u64` |
| `WireScalars.Int64BitsRoundTrip` | src/model.rs:390-394 | reinterpreting `int64` as `u64` loses nothing |
| `WireScalars.DoubleRoundTrip` | src/model.rs:418-421 | eight little-endian bytes read back as the same bit pattern |
| `Protobuf.FieldsRoundTrip` | src/model.rs:337-343 | a decoder reads exactly the fields written, consuming every byte |
| `Protobuf.PackedZigZagRoundTrip` | src/model.rs:513-522 | packed deltas read back |
| `Protobuf.PackedDoublesRoundTrip` | src/model.rs:524-533 | packed float counts read back |
| `WireMessages.LabelWireLen` | src/model.rs:373-400 | the length computed for a label is the length of the label message written |
| `WireMessages.SampleWireLen` | src/model.rs:403-412 | the length computed for a sample is the length written |
| `WireMessages.SpanWireLen` | src/model.rs:467-477 | the length computed for a span is the length written |
| `WireMessages.SpansLen` | src/model.rs:491-499 | the length computed for all spans, headers included, is the length written |
| `WireMessages.DeltasPayloadLen` | src/model.rs:509-511 | the packed size computed for deltas is the number of payload bytes |
| `WireMessages.HistogramWireLen` | src/model.rs:539-562 | the length computed for a histogram is the length of the message written |
| `WireMessages.ValueWireLen` | src/model.rs:618-623 | the length computed for the one value of a series is the length written |
| `WriteRequests.SeriesWireLen` | src/model.rs:603-614 | the length computed for a series is the length written |
| `WireDecoding.LabelRoundTrip` | src/model.rs:373-400 | a receiver reads every label back, empty names and values included |
| `WireDecoding.SampleRoundTrip` | src/model.rs:400-432 | a decoder gets the timestamp and every bit of the value back; only the pattern of `-0.0` reads back as `0.0` |
| `WireDecoding.SpanRoundTrip` | src/model.rs:467-489 | a receiver reads every bucket span back |
| `WireDecoding.HistogramRoundTrip` | src/model.rs:534-600 | a decoder gets every field back: counts, schema, spans, deltas, float counts, timestamp and reset hint (0 to 3), and sum and threshold bit for bit but for `-0.0` |
| `ConvertedHistograms.ConvertedIsSized` | src/protobuf.rs:551-569 | unless the cap masks its shift to 0 and a side has 2^32 buckets, every span of a converted histogram fits the wire: offsets `i32`, lengths `u32` |
| `ConvertedHistograms.ReceivedMeaning` | src/protobuf.rs:482-570 | an accepted integer histogram that is converted, encoded and decoded by a receiver keeps on each side the exposed cumulative counts at every bound of its schema if and only if no merged count leaves `i64` |
| `Encoders.Buffer.PutVarint` | src/model.rs:363-369 | the loop appends the varint and keeps what the buffer held |
| `Encoders.Buffer.PutSpans` | src/model.rs:501-507 | appends one framed message a span |
| `Encoders.Buffer.PutDeltas` | src/model.rs:513-522 | appends the packed deltas with their exact length prefix, or nothing |
| `Encoders.Buffer.PutCounts` | src/model.rs:524-533 | appends the packed float counts with their exact length prefix, or nothing |
| `Encoders.Buffer.PutHistogram` | src/model.rs:567-596 | appends the fields of the histogram message in tag order |
| `Encoders.Buffer.PutValue` | src/model.rs:627-637 | appends the framed sample or histogram of a series |
| `Encoders.Buffer.PutSeries` | src/model.rs:647-658 | appends one series framed by a length equal to the bytes that follow |
| `Encoders.Buffer.EncodeRequest` | src/model.rs:646-659 | appends exactly the request message; the old contents stay a prefix |
| `WriteRequests.SeriesRoundTrip` | src/model.rs:602-638 | a receiver reads labels, timestamp and value or histogram of a series back |
| `WriteRequests.RequestRoundTrip` | src/model.rs:640-660 | remote-write 1.0 round trip: decoding the encoded request returns every series of the batch in order |
| `WireBytes.VarintExactly` | src/model.rs:363-369 | varints are base 128, least significant group first, with the high bit on every byte but the last, and no longer than needed |
| `WireBytes.DoubleExactly` | src/model.rs:418-421 | a double is its bit pattern in eight bytes, least significant first |
| `WireBytes.LabelExactly` | src/model.rs:53-69 | a label is name and value under the keys 0x0a and 0x12, empty ones left out |
| `WireBytes.SampleExactly` | src/model.rs:417-427 | a sample is value and timestamp under the keys 0x09 and 0x10, zeros left out |
| `WireBytes.HistogramExactly` | src/model.rs:567-598 | every histogram field is under its own key from 0x08 to 0x78, in order, zeros and empty lists left out |
| `WireBytes.RequestExactly` | src/model.rs:604-657 | a 1.0 request is its series under 0x0a, each the labels under 0x0a and one value under 0x12 or 0x22 |
| `SymbolTable.InternAllSound` | src/remote_write.rs:463-480 | with at most 2^32 symbols, the symbols are distinct, the first is the empty string, every reference is in range and resolves to its text |
| `SymbolTable.ResolvesExactly` | src/remote_write.rs:463-480 | every reference resolves to its text if and only if the table has at most 2^32 symbols: the next one would get the reference of the empty string |
| `SymbolTable.ReuseIsPlain` | src/remote_write.rs:483-512 | taking an earlier reference of an equal text is what interning it again would return, and leaves the table as it is |
| `EncoderV2.InternLabel` | src/remote_write.rs:494-514 | the memoised step for one label gives the references and table of the plain interner |
| `EncoderV2.CollectRefs` | src/remote_write.rs:477-523 | pass 1 leaves the plain interner's table and reference stream, and each cached size is the packed size modulo 2^32 |
| `EncoderV2.FewLabelsFit` | src/remote_write.rs:517-521 | the `u32` cache is exact whenever every series has fewer than 2^32 / 20 labels |
| `EncoderV2.WriteSeries` | src/remote_write.rs:535-559 | appends the two headers computed from the cached size, the packed references and the value, whatever the cached size |
| `EncoderV2.WrittenSeriesIsField` | src/remote_write.rs:535-559 | with an exact cached size the bytes are one series framed by a length equal to what follows |
| `EncoderV2.EncodeRequestV2` | src/remote_write.rs:457-560 | appends the symbols and the series with prefixes from the cached sizes, which is the request of the plain interner whenever these fit; the old contents stay a prefix |
| `EncoderV2.WrittenExactly` | src/remote_write.rs:457-560 | the bytes written are the 2.0 request message if and only if every packed size fits its cache, which is when the cached sizes are the true ones |
| `WriteRequestsV2.RequestV2RoundTrip` | src/remote_write.rs:457-560 | remote-write 2.0 round trip: a receiver consumes every byte, resolves every reference and gets the whole batch back, if and only if the request has at most 2^32 symbols |
| `WireBytes.RequestV2Exactly` | src/remote_write.rs:524-560 | a 2.0 request is the symbols under 0x22, then the series under 0x2a, each the references under 0x0a and one value under 0x12 or 0x1a |
| `ExpositionRoundTrip.LabelValueRoundTrip` | src/parser.rs:494-573 | any bytes survive escaping, quoting and parsing |
| `ExpositionRoundTrip.LabelSetRoundTrip` | src/parser.rs:378-486 | label sets with distinct valid names, at most 128 with the metric name, parse to their labels wherever blanks stand and whether or not a comma ends them, consuming exactly the set |
| `ExpositionRoundTrip.LineRoundTrip` | src/parser.rs:186-326 | a line parses to the series it spells: any blanks, braces or none, timestamp or none, honored or not, remark or none |
| `ExpositionRoundTrip.BodyRoundTrip` | src/parser.rs:79-126 | a body parses to what its sample lines mean, in order; blank lines, comment lines and carriage returns add nothing and break nothing |
| `ExpositionRoundTrip.RemarkRoundTrip` | src/parser.rs:197-210 | a line that is blank up to a `#`, or blank, holds no series and is no fault |
| `ExpositionAcceptance.LabelSetIsSpelled` | src/parser.rs:378-486 | whatever is read as a label set is spelled by the grammar: distinct valid names other than `__name__`, within the cap, quoted and escaped values |
| `ExpositionAcceptance.LineExactly` | src/parser.rs:186-326 | a line holds a series if and only if it spells it by the grammar, and none if and only if it is blank up to a remark; every other line is malformed |
| `ExpositionAcceptance.BodyExactly` | src/parser.rs:79-126 | a body is accepted with given series if and only if it is made of sample lines that mean these in order, blank lines and comments, each ended by a line feed, with or without a carriage return, which the last may lack |
| `ExpositionLaws.HeadIsLocal` | src/parser.rs:212-251 | the labels of a series are read from its identity bytes alone |
| `ExpositionLaws.IdentityLocality` | src/parser.rs:212-318 | labels are a function of the bytes from metric name to closing brace, and the identity hash is over exactly these |
| `ExpositionLaws.BodySplits` | src/parser.rs:100-123 | parsing a body cut after a line feed is parsing the parts one after the other, line numbers carried on |
| `ExpositionParser.PlainIsUnescaped` | src/parser.rs:532-536 | without a backslash the escape decoder would return the raw bytes |
| `ExpositionParser.ScanValue` | src/parser.rs:506-530 | the scan finds the unescaped closing quote or the fault, and tells whether an escape was seen |
| `ExpositionParser.DecodeEscapes` | src/parser.rs:538-572 | the run-copying decoder equals byte-by-byte decoding |
| `ExpositionParser.ParseLabelValue` | src/parser.rs:494-573 | fast and slow path both return the decoded value and the index past the quote |
| `ExpositionParser.CheckLabelName` | src/parser.rs:334-357 | with or without the index a name is refused exactly when it repeats or would exceed the cap |
| `ExpositionParser.RecordLabelName` | src/parser.rs:362-374 | the index, built past the linear limit, always holds exactly the names so far |
| `ExpositionParser.ParseLabels` | src/parser.rs:378-486 | the cursor loop reads the label set and stops past the closing brace, or reports the first fault |
| `ExpositionParser.ParseLine` | src/parser.rs:186-326 | one line parsed with a cursor is the line of the format |
| `ExpositionParser.Parse` | src/parser.rs:79-126 | the body loop yields all series in order or the first error with its line number |
| `Patterns.LiteralMatches` | src/relabel.rs:75-77 | a pattern without metacharacters denotes exactly itself |
| `Patterns.PrefixMatches` | src/relabel.rs:78-80 | `prefix.*` denotes the strings with that prefix and no line feed after it |
| `Patterns.AnchoredMatchIsExact` | src/relabel.rs:90-126 | the classified fast match agrees with the anchored engine on every pattern and value, and with the denotation of literal, prefix and capture-all patterns |
| `Relabel.ExpandOne` | src/relabel.rs:349-350 | `$1` and `${1}` expand to the first group |
| `RelabelSets.CopyRuleIsExact` | src/relabel.rs:343-367 | the copy rule's short cut gives the capture path's label set: line feeds, empty results and invalid targets included |
| `RelabelSets.LiteralRuleIsExact` | src/relabel.rs:371-390 | the literal rule's short cut gives the capture path's label set |
| `RelabelSets.LabelSet.ApplyReplace` | src/relabel.rs:335-407 | all three branches leave the label set of the capture path |
| `RelabelSets.LabelSet.ApplyRule` | src/relabel.rs:264-332 | each action keeps, drops or rewrites the labels as specified on the label list |
| `RelabelSets.ProcessLabels` | src/relabel.rs:189-202 | rules apply in order, a dropping rule ends it, empty values go last |
| `Relabel.ProcessKeepsDistinct` | src/relabel.rs:189-202 | any rule list keeps names distinct and leaves no empty value |
| `Patterns.ClassifyExactly` | src/relabel.rs:85-101 | a pattern is literal if and only if it has none of the fourteen metacharacters, and a prefix pattern if and only if it is such a prefix and `.*` |
| `RelabelOutcomes.JoinIs` | src/relabel.rs:245-254 | a rule looks at its source labels' values in order with the separator between any two, a missing label being empty |
| `RelabelOutcomes.FilterStep` | src/relabel.rs:270-293 | `keep` and `drop` go by whether the value matches, `keepequal` and `dropequal` by whether it equals the target label; the labels stay as they are for the next rule |
| `RelabelOutcomes.LiteralFilterStep` | src/relabel.rs:270-281 | with a plain string as pattern, `keep` keeps exactly the series whose value is that string and `drop` drops exactly these |
| `RelabelOutcomes.ReplaceStep` | src/relabel.rs:335-407 | `replace` sets the expanded target to the expanded replacement, removes it when that is empty, and changes nothing when the pattern does not match or the target is no label name |
| `RelabelOutcomes.HashModStep` | src/relabel.rs:294-298 | `hashmod` sets the target label to the hash modulo the modulus, in decimal without leading zeros, and no other label |
| `RelabelOutcomes.CaseStep` | src/relabel.rs:320-329 | `lowercase` and `uppercase` set the target label to the mapped value and no other label |
| `RelabelOutcomes.NameStep` | src/relabel.rs:313-319 | after `labeldrop` the labels whose names do not match read as before and the others are gone; after `labelkeep` the other way round |
| `RelabelOutcomes.LabelMapStep` | src/relabel.rs:299-312 | `labelmap` sets every name some matching label expands to, to the value of the last such label as it was before the rule, and no other name |
| `RelabelOutcomes.ProcessEnd` | src/relabel.rs:199-202 | after the last rule labels with empty values go and the others read as before |
| `RelabelOutcomes.ExpandPieces` | src/relabel.rs:395-401 | expanding a template puts every group it names, by number or by name, in its place, nothing for a group there is not, and a dollar for a doubled one |
| `LabelLists.LookupSet` | src/scrape.rs:952-959 | setting a label changes the value of that name and of no other |
| `LabelLists.LookupRemove` | src/relabel.rs:237-239 | removing a label removes that name and no other |
| `LabelLists.NameLessExactly` | src/model.rs:333-335 | names are ordered bytewise: a proper prefix first, else by the first byte that differs |
| `LabelLists.SortSorts` | src/model.rs:332-335 | labels with distinct names end up strictly increasing by name |
| `LabelLists.SortPermutes` | src/model.rs:332-335 | sorting loses and invents no label |
| `LabelLists.SortedIsUnique` | src/model.rs:332-335 | there is one strictly sorted arrangement, so an unstable sort gives the same result |
| `LabelPipeline.MergeTargetLabels` | src/scrape.rs:922-943 | the in-place loop merges target labels one after the other |
| `LabelPipeline.HonorKeepsScraped` | src/scrape.rs:929-930 | with `honor_labels` every name reads as scraped, else as the target says |
| `LabelPipeline.TargetsWinExactly` | src/scrape.rs:920-921 | "the target label wins" holds on every scraped series if and only if no target label is named `exported_<name>` for a later target label `<name>` |
| `LabelPipeline.MergeMeaning` | src/scrape.rs:931-940 | every name reads as the value last moved to its `exported_` form since its own target label was merged, else as that target label says, else as scraped; chains of `exported_` names included |
| `LabelPipeline.ConflictMoves` | src/scrape.rs:935-937 | a value in conflict is found under the name with `exported_` before it, or, where a later target label takes that name, is the value that one displaces in turn |
| `LabelPipeline.ChainMovesTwice` | src/scrape.rs:931-940 | target labels `x` and then `exported_x` move a scraped `x` to `exported_exported_x` |
| `ScrapedLabels.TargetLosesOnALine` | src/scrape.rs:920-921 | wherever the condition fails for a valid label name, a line parses to a series on which the earlier target label does not win |
| `LabelPipeline.FinalizeSeriesLabels` | src/scrape.rs:908-916 | merge, relabel, add external labels, sort, in that order |
| `LabelPipeline.FinalizeMeaning` | src/scrape.rs:908-916 | name by name, what is sent reads as relabelled where relabeling left a value, else as the external label says; dropped exactly when a rule drops it |
| `LabelPipeline.FinalizeSorts` | src/scrape.rs:908-916 | distinct names in, nothing or strictly sorted labels out |
| `ScrapedLabels.ParsedLabels` | src/parser.rs:234-251 | a parsed series has `__name__` first, at most 128 labels and no name twice |
| `ScrapedLabels.PipelineInvariant` | src/scrape.rs:908-916 | from any parsed series and any configuration: nothing, or labels strictly increasing by name |
| `HashSets.Dedup` | src/scrape.rs:574-575 | sorted identities become strictly increasing, none lost |
| `HashSets.BinarySearch` | src/scrape.rs:577-582 | finds an identity if and only if it is there |
| `HashSets.IncreasingIsUnique` | src/scrape.rs:595 | comparing sorted vectors compares the sets |
| `StalenessModel.TrackedIsDerivable` | src/scrape.rs:569-573 | what a scrape tracks is exactly what can be re-derived from its body at its own time |
| `StalenessModel.RederiveOneEach` | src/scrape.rs:668-687 | re-derivation gives exactly one marker for each wanted identity: its final labels, the bits 0x7ff0000000000002 and the given time |
| `StalenessTheorems.ReachableIsFaithful` | src/scrape.rs:585-614 | in every reachable state the retained body, however old, tracks exactly the identities held; without one none are held, unless the last body failed to compress |
| `StalenessTheorems.MarkersExactly` | src/scrape.rs:562-617 | each round sends one marker for each identity that left the tracked set, with its final labels, the staleness NaN and this round's time, and none for any other; right after a body that failed to compress it may hold none and then sends no marker |
| `StalenessTheorems.RemovalExactly` | src/scrape.rs:619-629 | removing the target sends one such marker for each tracked identity and none for any other, or none at all when the last body failed to compress and none is held |
| `StalenessTheorems.MarkersCarrySentLabels` | src/scrape.rs:631-633 | a marker carries the very labels last sent for its identity, the staleness NaN and this round's time |
| `StalenessTheorems.Conservation` | src/scrape.rs:562-617 | after every round arrivals are markers sent, plus identities tracked, plus those that went while no body was held, of which there are none while bodies compress |
| `StalenessTheorems.RoundOutcome` | src/scrape.rs:761-800 | a round sends its series and may retain its body if and only if it was fetched, parsed and is within the sample limit |
| `StalenessTheorems.EmittedExactly` | src/scrape.rs:774-790 | every series whose labels are kept is sent with its final labels and otherwise as parsed, in order, and no other |
| `StalenessTheorems.BodyKept` | src/scrape.rs:585-614 | the retained body stays, however old, as long as rounds succeed with the same identities, and is replaced by the round's own when they change |
| `StalenessTracker.SeriesTracker.Advance` | src/scrape.rs:562-617 | in place: identities, retained body, gauge and markers of one round, a failed compression giving the body up |
| `StalenessTracker.SeriesTracker.DrainAll` | src/scrape.rs:619-629 | in place: markers for all identities held, and nothing held after |
| `StalenessTracker.SeriesTracker.RederiveMarkers` | src/scrape.rs:634-688 | the loop with `consumed` flags and binary search re-derives each vanished identity once |
| `StalenessTracker.SeriesTracker.UpdateGauge` | src/scrape.rs:690-703 | the gauge moves by the change in identities, so other trackers' share is untouched |
| `StalenessTracker.SeriesTracker.Release` | src/scrape.rs:706-716 | dropping the tracker gives its whole share of the gauge back |
| `StalenessTracker.Identities` | src/scrape.rs:569-575 | the identities of scrape-timestamped series, sorted, once each |
| `StalenessTracker.Missing` | src/scrape.rs:577-582 | the identities held before and not now, sorted |
| `StalenessTracker.StaleEach` | src/scrape.rs:450-452 | removal sends for each report label set one series with these labels, the staleness NaN and the time of removal |
| `StalenessTracker.ReportLabelsAre` | src/scrape.rs:501-503 | the report labels are those of the first report with any series in it |
| `StalenessTracker.ScrapeLoop` | src/scrape.rs:438-507 | over any run each batch is the round's series, markers and report; only removal sends more, markers for the tracked and the report series, and shutdown nothing; the gauge ends where it began |
| `TextStaleness.TextIsCollisionFree` | src/scrape.rs:904-907 | for text bodies an identity's labels are a function of its bytes: only a hash collision within the run could confuse two |
| `TextStaleness.TextMarkersExactly` | src/scrape.rs:562-617 | for runs of text bodies without a hash collision, each round sends one marker for each series that is gone, with the labels its identity bytes stand for, and none for any other; none at all while no body is held |
| `TextStaleness.TextRemovalExactly` | src/scrape.rs:619-629 | for runs of text bodies without a hash collision, removal sends one marker for each series still tracked, with the labels its identity bytes stand for, or none while no body is held |
| `SenderTheorems.RunKeeps` | src/remote_write.rs:199-247 | in every run chunks and pending are the received series in order; size-triggered chunks are exactly full, others not full and not empty; pending is below the bound while waiting; the queue is bounded |
| `SenderTheorems.Ledger` | src/remote_write.rs:51-346 | every series offered is dropped, queued, withheld as a histogram, pending, relabelled away, in retry, accepted, rejected or uncompressible |
| `SenderTheorems.CloseLeavesNothing` | src/remote_write.rs:237-247 | once the task has stopped, queue and pending are empty and every received series was in exactly one settled chunk |
| `SenderTheorems.OutcomesAreFinal` | src/remote_write.rs:304-346 | a batch ends with at most one outcome |
| `SenderTheorems.WaitClosedForm` | src/remote_write.rs:303-343 | the first wait is the minimum; the `k`-th after it is the minimum times 2^k, up to the maximum |
| `SenderOutcomes.OfferOutcome` | src/remote_write.rs:65-94 | a batch is queued whole, or dropped whole and counted: dropped if and only if as many batches wait as one per hundred samples of capacity, but at least sixteen, or the task is gone |
| `SenderOutcomes.WithoutHistogramsExactly` | src/remote_write.rs:565-567 | exactly the series with a histogram are left out, the others stay in order |
| `SenderOutcomes.KeptExactly` | src/remote_write.rs:256-271 | series the rules keep go on in order with the labels the rules leave, sorted, and are otherwise unchanged; without rules nothing changes |
| `SenderOutcomes.ReceiveOutcome` | src/remote_write.rs:212-224 | receiving takes the oldest batch, without histograms where the endpoint wants none, and flushes the oldest pending series as soon as they fill a request |
| `SenderOutcomes.RestOutcome` | src/remote_write.rs:227-247 | the deadline and the end flush everything that is pending, if anything is |
| `SenderOutcomes.EncodeOutcome` | src/remote_write.rs:272-301 | a batch of which nothing is kept or that does not compress ends there; any other is tried |
| `SenderOutcomes.AnswerOutcome` | src/remote_write.rs:304-345 | a recoverable failure keeps the batch and changes nothing but waits and backoff; any other answer ends it as accepted or rejected, and the task goes on with the next full chunk, waits, or stops |
| `SenderOutcomes.TriedUntilAnswered` | src/remote_write.rs:303-346 | however many recoverable failures come first, the batch stays as it was split off and is then accepted or rejected as answered, after the waits of the backoff |
| `RemoteWrite.Channel.TrySend` | src/remote_write.rs:76-80 | a payload is taken whole or refused whole, refused exactly when the queue is full or its task gone |
| `RemoteWrite.RemoteWriteHandle.Send` | src/remote_write.rs:65-94 | each endpoint takes or refuses the batch on its own and the drop counter grows by the series of every refusal; an empty batch does nothing |
| `RemoteWrite.DropNativeHistograms` | src/remote_write.rs:565-567 | exactly the series without a histogram stay, in order |
| `RemoteWrite.SplitBatch` | src/remote_write.rs:571-577 | chunk and rest are the pending series; the chunk is full unless the rest is empty |
| `RemoteWrite.WriteRelabel` | src/remote_write.rs:256-271 | series kept by the rules with sorted labels, untouched without rules |
| `RemoteWrite.Endpoint.OnReceive` | src/remote_write.rs:212-224 | in place: the receive branch up to the first flush it starts |
| `RemoteWrite.Endpoint.OnTick` | src/remote_write.rs:227-233 | in place: everything pending is flushed, if anything |
| `RemoteWrite.Endpoint.OnClose` | src/remote_write.rs:237-247 | in place: everything pending is flushed before the task stops |
| `RemoteWrite.Endpoint.OnEncode` | src/remote_write.rs:272-301 | in place: an emptied or uncompressible batch ends here, else the first attempt starts with the minimum backoff |
| `RemoteWrite.Endpoint.OnAnswer` | src/remote_write.rs:305-345 | in place: accepted and unrecoverable replies end the batch, a recoverable one waits and doubles the backoff up to the maximum |
| `RemoteWrite.Endpoint.FlushChunk` | src/remote_write.rs:272-346 | the retry loop of one flush is a run of the machine that ends with the flush or with the replies |
| `RemoteWrite.Endpoint.ReceiveBranch` | src/remote_write.rs:211-225 | the receive branch with its loop of flushes is a run of the machine that goes on while the bound is reached |
| `RemoteWrite.Endpoint.Play` | src/remote_write.rs:199-346 | any possible sequence of events takes the task where the state machine goes |
| `Decimals.LeadingDigits` | src/config.rs:778-781 | the length of the longest leading run of digits |
| `Durations.ContributionFits` | src/config.rs:907-912 | the 128-bit total can never overflow, so those two error branches are unreachable |
| `Durations.LongestUnitOf` | src/config.rs:889-894 | the longest match reads `ms` and `m` apart |
| `Durations.Parse` | src/config.rs:850-921 | the loop reads the groups in order and reports the first fault |
| `Durations.AcceptedExactly` | src/config.rs:850-921 | accepted if and only if `0` or `<number><unit>` groups in strictly descending units whose sum fits, and worth that sum |
| `Durations.DurationRoundTrip` | src/config.rs:850-921 | every `u64` of milliseconds printed canonically parses back to itself |
| `Durations.TooLong` | src/config.rs:917-920 | well-formed groups whose sum does not fit 64 bits are reported as an overflow |
| `UnitTables.DurationUnits` | src/config.rs:854-862 | `y` is 365 days, `w` 7 days, and `d`, `h`, `m`, `s` and `ms` what they say, from long to short |
| `UnitTables.WholeDuration` | src/config.rs:850-921 | a number of a unit is worth that many times the unit, when that fits |
| `Sizes.ReadComponent` | src/config.rs:727-748 | one component read with a moving rest is the first component of the grammar |
| `Sizes.ComponentBytes` | src/config.rs:751-770 | the checked arithmetic of one component |
| `Sizes.NineteenDigitsFit` | src/config.rs:764-767 | at most 19 digits fit 64 bits and times any unit fit 128, so the wide numerator cannot overflow |
| `Sizes.Parse` | src/config.rs:686-775 | the loop sums the components in order and reports the first fault |
| `SizeTheorems.CheckedIsValue` | src/config.rs:751-770 | a component overflows if and only if its value does not fit 64 bits |
| `SizeTheorems.AcceptedExactly` | src/config.rs:709-774 | accepted if and only if a bare number, or components of number and known unit, whose sum fits, and worth that sum |
| `SizeTheorems.TooLarge` | src/config.rs:751-774 | a well-formed size that does not fit 64 bits is reported as an overflow |
| `UnitTables.SizeUnits` | src/config.rs:692-706 | `B` is one byte and the six prefixes with `B` or `iB` are powers of 1024; there is no other unit |
| `UnitTables.WholeSize` | src/config.rs:708-774 | a whole number of a unit is worth that many times the unit, when that fits |
| `UnitTables.WhiteSpaceAround` | src/config.rs:708 | spaces, tabs and ends of lines around a size do not matter |
| `SizeTheorems.ComponentWithinOne` | src/config.rs:751-770 | a component is worth its exact rational value rounded down or one byte less, the former when the fraction has at most 19 digits |
| `SizeTheorems.TruncationIsExact` | src/config.rs:760-769 | digits past the 19th never matter if and only if there are none or the unit is at most a kibibyte |
| `SizeTheorems.LostByteParses` | src/config.rs:761-764 | `0.00000000000000000087EiB` is worth one byte and parses to none |

## Left out

Weaker than the source in a stated way:

- Encoders.Buffer.EncodeRequest: lengths are taken modulo 2^64, as the cast to `u64` does; that prefixes are exact is claimed by the round trips for messages below 2^64 bytes, which a buffer cannot exceed.
- WriteRequestsV2.RequestV2RoundTrip: for requests below 2^64 bytes, which a buffer cannot exceed; more than 2^32 symbols do break it, as it says.
- ResolutionTheorems.ConversionPreservesMeaning: for integer counts and schemas whose cap merges as intended (`ResolutionTheorems.MaskedShiftIsRight`).
- FloatHistograms.FloatConversionPreservesMeaning: double addition is a parameter; the claim is for counts it adds exactly, as integers up to 2^53 are. For any addition `FloatHistograms.FloatCountsAddUp` says what one reduction adds up, in which order.
- ResolutionTheorems.ConversionIsOneShot: for integer histograms; stepwise float additions may round differently, so for float counts only the spans are claimed (`HistogramConversion.StepsSpansAreOneShot`).
- StalenessTheorems.MarkersExactly: assumes no two identities of the run share a 64-bit hash, the risk the source accepts; per identity, not per final label set, since different raw text may end up with the same labels.
- TextStaleness.TextMarkersExactly: for runs whose bodies are all in the text format; protobuf bodies go through an abstract parser, for which `StalenessTheorems.MarkersExactly` asks that identities tell labels.
- StalenessTracker.ScrapeLoop: what the report series (`up` and the like) hold is given, not computed; timers and the loop with tracking off are not modelled.
- SenderTheorems.Ledger: safety only; the retry loop goes on for as long as replies are recoverable. A batch that fails to compress is counted as such although the source only logs it.
- RemoteWrite.Endpoint.Play: the outer loop of `run` takes its events in any possible order: which ready branch `select!` takes, the deadline timer and its reset, and what the endpoint replies are free.
- RemoteWrite.Endpoint.ReceiveBranch: the inner loops run on given replies, as far as they go, because a flush may be retried for ever.
- ExpositionAcceptance.BodyExactly: number and timestamp tokens are read by parameters, and the identity hash is one.
- Patterns.AnchoredMatchIsExact: literal, `prefix.*` and `(.*)` patterns have a denotation the engine must follow; every other pattern is the engine's own, used the same way by both sides.
- Sizes.Parse: text is trimmed of the UTF-8 forms of Unicode white space, which is what trimming does on valid UTF-8.

Not modelled:

- HTTP, TLS, credentials, headers and status codes; snappy; timers, signals, the web endpoint and the process main loop.
- Static, file and Kubernetes discovery (`src/sd.rs`, `src/sd_k8s.rs`), building targets and their labels.
- The identity hash and MD5 (`src/hash.rs`): parameters. `hashmod` with modulus 0, which loading the configuration refuses, counts as 0 instead of panicking.
- Parsing and formatting of floating-point numbers, and UTF-8 validation of bodies.
- Decoding of protobuf exposition messages, and the expansion of summaries and classic histograms.
- Growth of buffers and vectors, and that the 2.0 symbol table's hash map is a hash map: it is a map.
- Telemetry counters other than the tracked series gauge and the dropped series total; log lines.
- Counter values near 2^64: the gauge and the counters are unbounded integers.
