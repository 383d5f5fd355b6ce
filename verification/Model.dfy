/** The pipeline's data types (`src/model.rs`). */
module Model {
  import opened Basics

  datatype Label = Label(name: Text, value: Text)

  datatype Sample = Sample(value: F64, timestamp: i64)

  /** Integer histograms carry integer counts, float histograms float ones. */
  datatype HistogramCount = CountInt(n: u64) | CountFloat(f: F64)

  /** A run of `length` populated buckets, `offset` buckets after the previous run. */
  datatype BucketSpan = BucketSpan(offset: int, length: nat)

  datatype ResetHint = Unknown | Yes | No | Gauge

  /** One sign of a native histogram. At most one of `deltas` (integer counts,
      each the difference to its predecessor) and `counts` (float counts) is in use. */
  datatype Side = Side(spans: seq<BucketSpan>, deltas: seq<i64>, counts: seq<F64>)
  {
    /** Populated buckets, whichever representation is in use. */
    function BucketLen(): nat {
      |deltas| + |counts|
    }
  }

  datatype Histogram = Histogram(
    count: HistogramCount,
    sum: F64,
    schema: i32,
    zeroThreshold: F64,
    zeroCount: HistogramCount,
    negative: Side,
    positive: Side,
    resetHint: ResetHint)
  {
    function BucketTotal(): nat {
      negative.BucketLen() + positive.BucketLen()
    }
  }

  /** One series carrying one sample; a histogram replaces the sample's value. */
  datatype TimeSeries = TimeSeries(
    labels: seq<Label>,
    sample: Sample,
    identityHash: u64,
    histogram: Option<Histogram>)

  const STALE_NAN_BITS: F64 := 0x7ff0_0000_0000_0002
}
