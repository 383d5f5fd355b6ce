/** The staleness tracker and the scrape loop around it, updated in place (`src/scrape.rs:413-729`). */
module StalenessTracker {
  import opened Basics
  import opened Model
  import opened HashSets
  import opened StalenessModel

  /** Snappy, trusted to give back what it compressed. */
  datatype Codec = Codec(compress: Text -> Option<Text>, decompress: Text -> Option<Text>)

  ghost predicate Lossless(codec: Codec, compresses: Text -> bool) {
    && (forall bytes :: codec.compress(bytes).Some? <==> compresses(bytes))
    && forall bytes | codec.compress(bytes).Some? :: codec.decompress(codec.compress(bytes).value) == Some(bytes)
  }

  /** The process-wide `tracked_series` gauge, shared by all trackers. */
  class Gauge {
    var value: int

    constructor ()
      ensures value == 0
    {
      value := 0;
    }
  }

  datatype RetainedScrape = RetainedScrape(compressed: Text, format: BodyFormat, startMs: i64)

  /** The series of markers. */
  function Bare(markers: seq<Marker>): (bare: seq<TimeSeries>)
    ensures |bare| == |markers| && forall i | 0 <= i < |markers| :: bare[i] == markers[i].1
  {
    if markers == [] then [] else [markers[0].1] + Bare(markers[1..])
  }

  lemma BareCons(marker: Marker, rest: seq<Marker>)
    ensures Bare([marker] + rest) == [marker.1] + Bare(rest)
  {
    assert ([marker] + rest)[1..] == rest;
  }

  /** The identities not yet consumed. */
  function Left(vanished: seq<u64>, consumed: seq<bool>): set<u64>
    requires |consumed| == |vanished|
  {
    set i | 0 <= i < |vanished| && !consumed[i] :: vanished[i]
  }

  lemma LeftAfter(vanished: seq<u64>, consumed: seq<bool>, k: nat)
    requires |consumed| == |vanished| && k < |vanished| && Increasing(vanished)
    ensures vanished[k] in Left(vanished, consumed) <==> !consumed[k]
    ensures Left(vanished, consumed[k := true]) == Left(vanished, consumed) - {vanished[k]}
  {
    forall id | id in Left(vanished, consumed) && id != vanished[k]
      ensures id in Left(vanished, consumed[k := true])
    {
      var i :| 0 <= i < |vanished| && !consumed[i] && vanished[i] == id;
      assert !consumed[k := true][i];
    }
  }

  lemma LeftIsWithin(vanished: seq<u64>, consumed: seq<bool>, id: u64)
    requires |consumed| == |vanished| && id !in vanished
    ensures id !in Left(vanished, consumed)
  {
  }

  lemma NothingConsumed(vanished: seq<u64>, consumed: seq<bool>)
    requires |consumed| == |vanished| && forall i | 0 <= i < |consumed| :: !consumed[i]
    ensures Left(vanished, consumed) == Elements(vanished)
  {
    forall id | id in vanished
      ensures id in Left(vanished, consumed)
    {
      var i :| 0 <= i < |vanished| && vanished[i] == id;
      assert !consumed[i];
    }
  }

  lemma BareNil()
    ensures Bare([]) == []
  {
  }

  lemma AfterOneMore(scraper: Scraper, rounds: seq<Round>, k: nat)
    requires k < |rounds|
    ensures After(scraper, rounds[..k + 1])
      == StalenessModel.Advance(scraper, After(scraper, rounds[..k]), ScrapeOnce(scraper, rounds[k]))
  {
    assert rounds[..k + 1][..k] == rounds[..k] && rounds[..k + 1][k] == rounds[k];
  }

  lemma SendsOneMore(
    scraper: Scraper, rounds: seq<Round>, k: nat, reports: seq<seq<TimeSeries>>, sent: seq<seq<TimeSeries>>,
    batch: seq<TimeSeries>)
    requires k < |rounds| <= |reports| && |sent| == k && SendsRounds(scraper, rounds[..k], reports, sent)
    requires batch == ScrapeOnce(scraper, rounds[k]).batch + Bare(MarkersAt(scraper, rounds, k)) + reports[k]
    ensures SendsRounds(scraper, rounds[..k + 1], reports, sent + [batch])
  {
    hide ScrapeOnce, Bare, AdvanceMarkers, After;
    var upTo := rounds[..k + 1];
    assert upTo[..k] == rounds[..k] && upTo[k] == rounds[k];
    forall j | 0 <= j < k
      ensures (sent + [batch])[j]
        == ScrapeOnce(scraper, upTo[j]).batch + Bare(MarkersAt(scraper, upTo, j)) + reports[j]
    {
      assert rounds[..k][j] == upTo[j] && rounds[..k][..j] == upTo[..j];
    }
  }

  class SeriesTracker {
    const scraper: Scraper
    const codec: Codec
    const gauge: Gauge
    var retained: Option<RetainedScrape>
    var hashes: seq<u64>
    var trackedReported: nat

    ghost predicate Valid()
      reads this
    {
      && Lossless(codec, scraper.compresses)
      && Increasing(hashes)
      && trackedReported == |hashes|
      && (retained.Some? ==> codec.decompress(retained.value.compressed).Some?)
    }

    /** What the tracker stands for: the retained body uncompressed, the identities as a set. */
    ghost function Value(): Tracker
      requires Valid()
      reads this
    {
      Tracker(
        match retained
        case None => None
        case Some(scrape) =>
          Some((ScrapeBody(codec.decompress(scrape.compressed).value, scrape.format), scrape.startMs)),
        Elements(hashes))
    }

    constructor (scraper: Scraper, codec: Codec, gauge: Gauge)
      requires Lossless(codec, scraper.compresses)
      ensures Valid() && Value() == EMPTY_TRACKER && trackedReported == 0
      ensures this.scraper == scraper && this.codec == codec && this.gauge == gauge
    {
      this.scraper, this.codec, this.gauge := scraper, codec, gauge;
      retained, hashes, trackedReported := None, [], 0;
    }

    /** Advance by one scrape and return one marker for every series gone now. The retained
        body is kept while the identities do not change, and given up when a new one does not
        compress. */
    method Advance(batch: seq<TimeSeries>, retainedBody: Option<ScrapeBody>, startMs: i64)
      returns (markers: seq<TimeSeries>)
      requires Valid()
      modifies this, gauge
      ensures Valid()
      ensures Value() == StalenessModel.Advance(scraper, old(Value()), Outcome(batch, retainedBody, startMs))
      ensures markers == Bare(AdvanceMarkers(scraper, old(Value()), Outcome(batch, retainedBody, startMs)))
      ensures gauge.value - trackedReported == old(gauge.value - trackedReported)
    {
      hide Markers, TrackedIn;
      var current := Identities(batch, startMs);
      var vanished := Missing(hashes, current);
      markers := RederiveMarkers(vanished, startMs);
      match retainedBody {
        case None => retained := None;
        case Some(body) =>
          if retained.None? || hashes != current {
            if Elements(hashes) == Elements(current) {
              IncreasingIsUnique(hashes, current);
            }
            var compressed := codec.compress(body.bytes);
            retained :=
              if compressed.Some? then Some(RetainedScrape(compressed.value, body.format, startMs)) else None;
          }
      }
      hashes := current;
      UpdateGauge();
    }

    /** Emit markers for everything tracked; the target is gone. */
    method DrainAll(timestamp: i64) returns (markers: seq<TimeSeries>)
      requires Valid()
      modifies this, gauge
      ensures Valid() && Value() == EMPTY_TRACKER
      ensures markers == Bare(Markers(scraper, old(Value()), old(Value()).ids, timestamp))
      ensures gauge.value - trackedReported == old(gauge.value - trackedReported)
    {
      hide Markers;
      var vanished := hashes;
      markers := RederiveMarkers(vanished, timestamp);
      hashes := [];
      retained := None;
      UpdateGauge();
    }

    /** Re-parse the retained body and rebuild the final labels of the vanished identities. */
    method RederiveMarkers(vanished: seq<u64>, timestamp: i64) returns (markers: seq<TimeSeries>)
      requires Valid() && Increasing(vanished)
      ensures markers == Bare(Markers(scraper, Value(), Elements(vanished), timestamp))
    {
      hide Rederive;
      if vanished == [] {
        return [];
      }
      assert vanished[0] in Elements(vanished);
      if retained.None? {
        return [];
      }
      var bytes := codec.decompress(retained.value.compressed).value;
      var parsed := scraper.parse(ScrapeBody(bytes, retained.value.format), retained.value.startMs);
      if parsed.None? {
        return [];
      }
      markers := RederiveFrom(parsed.value, retained.value.startMs, vanished, timestamp);
    }

    /** The re-derivation loop: each vanished identity is consumed once. */
    method RederiveFrom(series: seq<TimeSeries>, bodyMs: i64, vanished: seq<u64>, timestamp: i64)
      returns (markers: seq<TimeSeries>)
      requires Increasing(vanished)
      ensures markers == Bare(Rederive(scraper, series, Elements(vanished), bodyMs, timestamp))
    {
      hide Left, Elements, Bare;
      var consumed := seq(|vanished|, _ => false);
      markers := [];
      NothingConsumed(vanished, consumed);
      assert series[0..] == series;
      for i := 0 to |series|
        invariant |consumed| == |vanished|
        invariant markers + Bare(Rederive(scraper, series[i..], Left(vanished, consumed), bodyMs, timestamp))
          == Bare(Rederive(scraper, series, Elements(vanished), bodyMs, timestamp))
      {
        var single := series[i];
        assert series[i..][0] == single && series[i..][1..] == series[i + 1..];
        if single.sample.timestamp != bodyMs {
          continue;
        }
        var index := BinarySearch(vanished, single.identityHash);
        if index.None? {
          LeftIsWithin(vanished, consumed, single.identityHash);
          continue;
        }
        var k := index.value;
        LeftAfter(vanished, consumed, k);
        if consumed[k] {
          continue;
        }
        var labels := scraper.finalize(single.labels);
        if labels.None? {
          continue;
        }
        ghost var rest :=
          Rederive(scraper, series[i + 1..], Left(vanished, consumed[k := true]), bodyMs, timestamp);
        BareCons((single.identityHash, StaleSeries(labels.value, timestamp)), rest);
        consumed := consumed[k := true];
        markers := markers + [StaleSeries(labels.value, timestamp)];
      }
      BareNil();
      assert markers + [] == markers;
    }

    method UpdateGauge()
      modifies this`trackedReported, gauge
      ensures trackedReported == |hashes|
      ensures gauge.value - trackedReported == old(gauge.value - trackedReported)
    {
      var now := |hashes|;
      if now >= trackedReported {
        gauge.value := gauge.value + (now - trackedReported);
      } else {
        gauge.value := gauge.value - (trackedReported - now);
      }
      trackedReported := now;
    }

    /** `Drop`: every exit path gives this tracker's share of the gauge back. */
    method Release()
      modifies this`trackedReported, gauge
      ensures trackedReported == 0 && gauge.value == old(gauge.value - trackedReported)
    {
      gauge.value := gauge.value - trackedReported;
      trackedReported := 0;
    }
  }

  /** Identities of the series stamped with the scrape time, sorted, once each. */
  method Identities(batch: seq<TimeSeries>, startMs: i64) returns (current: seq<u64>)
    ensures Increasing(current) && Elements(current) == TrackedIn(batch, startMs)
  {
    var found: seq<u64> := [];
    for i := 0 to |batch|
      invariant forall id :: id in found <==> id in TrackedIn(batch[..i], startMs)
    {
      TakeSnoc(batch, i);
      TrackedAppend(batch[..i], [batch[i]], startMs);
      TrackedOne(batch[i], startMs);
      if batch[i].sample.timestamp == startMs {
        found := found + [batch[i].identityHash];
      }
    }
    assert batch[..|batch|] == batch;
    SortSorts(found);
    current := Dedup(Sort(found));
  }

  /** The elements of `before` that are not in `current`. */
  method Missing(before: seq<u64>, current: seq<u64>) returns (vanished: seq<u64>)
    requires Increasing(before) && Increasing(current)
    ensures Increasing(vanished) && Elements(vanished) == Elements(before) - Elements(current)
  {
    vanished := [];
    for i := 0 to |before|
      invariant Increasing(vanished)
      invariant forall id :: id in vanished <==> id in before[..i] && id !in current
    {
      TakeSnoc(before, i);
      var found := BinarySearch(current, before[i]);
      if found.None? {
        forall k | 0 <= k < |vanished|
          ensures vanished[k] < before[i]
        {
          assert vanished[k] in vanished && vanished[k] in before[..i];
        }
        vanished := vanished + [before[i]];
      } else {
        assert before[i] in current;
      }
    }
    assert before[..|before|] == before;
  }

  // ----- the loop

  /** How a scrape loop ends: process shutdown, or the target left the target set. */
  datatype Ending = Shutdown | Removed(timestamp: i64)

  /** Stale markers for label sets. */
  function StaleEach(labels: seq<seq<Label>>, timestamp: i64): (markers: seq<TimeSeries>)
    ensures |markers| == |labels|
    ensures forall i | 0 <= i < |labels| ::
      markers[i] == TimeSeries(labels[i], Sample(0x7ff0_0000_0000_0002, timestamp), 0, None)
  {
    if labels == [] then [] else [StaleSeries(labels[0], timestamp)] + StaleEach(labels[1..], timestamp)
  }

  function LabelsEach(report: seq<TimeSeries>): (labels: seq<seq<Label>>)
    ensures |labels| == |report| && forall i | 0 <= i < |report| :: labels[i] == report[i].labels
  {
    if report == [] then [] else [report[0].labels] + LabelsEach(report[1..])
  }

  /** The label sets of the first report with any series in it. */
  function ReportLabels(reports: seq<seq<TimeSeries>>): seq<seq<Label>> {
    if reports == [] then []
    else
      var earlier := ReportLabels(reports[..|reports| - 1]);
      if earlier == [] then LabelsEach(reports[|reports| - 1]) else earlier
  }

  /** The labels are those of the first report with any series in it, if there is one. */
  lemma {:induction false} ReportLabelsAre(reports: seq<seq<TimeSeries>>, k: nat)
    requires k <= |reports| && forall j | 0 <= j < k :: reports[j] == []
    ensures k == |reports| ==> ReportLabels(reports) == []
    ensures k < |reports| && reports[k] != [] ==> ReportLabels(reports) == LabelsEach(reports[k])
  {
    if reports != [] {
      var init := reports[..|reports| - 1];
      if k < |init| {
        ReportLabelsAre(init, k);
      } else {
        ReportLabelsAre(init, |init|);
      }
    }
  }

  /** Each round sends its series, its markers and its report. */
  ghost predicate SendsRounds(
    scraper: Scraper, rounds: seq<Round>, reports: seq<seq<TimeSeries>>, sent: seq<seq<TimeSeries>>)
    requires |reports| >= |rounds|
  {
    && |sent| >= |rounds|
    && forall k | 0 <= k < |rounds| ::
      sent[k] == ScrapeOnce(scraper, rounds[k]).batch + Bare(MarkersAt(scraper, rounds, k)) + reports[k]
  }

  /** The scrape loop with staleness tracking on, over the fetches `rounds`, whose report series
      are `reports`, until `ending`. Each batch carries its round's series, markers and report;
      only removal sends more: markers for all that is tracked and for the report series. Whatever
      the ending, the gauge is left as it was found. */
  method ScrapeLoop(
    scraper: Scraper, codec: Codec, gauge: Gauge, rounds: seq<Round>, reports: seq<seq<TimeSeries>>, ending: Ending)
    returns (sent: seq<seq<TimeSeries>>)
    requires Lossless(codec, scraper.compresses) && |reports| == |rounds|
    modifies gauge
    ensures SendsRounds(scraper, rounds, reports, sent)
    ensures ending.Shutdown? ==> |sent| == |rounds|
    ensures ending.Removed? ==>
      && |sent| == |rounds| + 1
      && sent[|rounds|] == Bare(MarkersAtRemoval(scraper, rounds, ending.timestamp))
        + StaleEach(ReportLabels(reports), ending.timestamp)
    ensures gauge.value == old(gauge.value)
  {
    hide Lossless, Advance, Markers, AdvanceMarkers, ScrapeOnce, Bare, LabelsEach, StaleEach;
    var tracker := new SeriesTracker(scraper, codec, gauge);
    var reportSeries: seq<seq<Label>> := [];
    sent := [];
    for k := 0 to |rounds|
      invariant tracker.Valid() && fresh(tracker) && tracker.gauge == gauge && tracker.scraper == scraper
      invariant tracker.Value() == After(scraper, rounds[..k])
      invariant |sent| == k && SendsRounds(scraper, rounds[..k], reports, sent)
      invariant reportSeries == ReportLabels(reports[..k])
      invariant gauge.value - tracker.trackedReported == old(gauge.value)
    {
      var outcome := ScrapeOnce(scraper, rounds[k]);
      var markers := tracker.Advance(outcome.batch, outcome.retained, outcome.startMs);
      var batch := outcome.batch + markers;
      assert reports[..k + 1][..k] == reports[..k];
      if reportSeries == [] {
        reportSeries := LabelsOfAll(reports[k]);
      }
      batch := batch + reports[k];
      SendsOneMore(scraper, rounds, k, reports, sent, batch);
      AfterOneMore(scraper, rounds, k);
      sent := sent + [batch];
    }
    assert rounds[..|rounds|] == rounds && reports[..|reports|] == reports;
    if ending.Removed? {
      var markers := tracker.DrainAll(ending.timestamp);
      var reportMarkers := StaleAll(reportSeries, ending.timestamp);
      sent := sent + [markers + reportMarkers];
    }
    tracker.Release();
  }

  method LabelsOfAll(report: seq<TimeSeries>) returns (labels: seq<seq<Label>>)
    ensures labels == LabelsEach(report)
  {
    labels := [];
    assert report[0..] == report;
    for i := 0 to |report|
      invariant labels + LabelsEach(report[i..]) == LabelsEach(report)
    {
      assert report[i..][1..] == report[i + 1..];
      labels := labels + [report[i].labels];
    }
  }

  method StaleAll(labels: seq<seq<Label>>, timestamp: i64) returns (markers: seq<TimeSeries>)
    ensures markers == StaleEach(labels, timestamp)
  {
    markers := [];
    assert labels[0..] == labels;
    for i := 0 to |labels|
      invariant markers + StaleEach(labels[i..], timestamp) == StaleEach(labels, timestamp)
    {
      assert labels[i..][1..] == labels[i + 1..];
      markers := markers + [StaleSeries(labels[i], timestamp)];
    }
  }
}
