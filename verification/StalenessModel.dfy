/**
 Staleness tracking as a function of scrape outcomes (`src/scrape.rs:441-688`): the lazy
 tracker, which keeps identities and one possibly old body, against what was really emitted.
 */
module StalenessModel {
  import opened Basics
  import opened Model

  datatype BodyFormat = TextFormat | ProtobufFormat

  datatype ScrapeBody = ScrapeBody(bytes: Text, format: BodyFormat)

  /** A target's deterministic pipeline: body and scrape time to series, raw labels to final
      ones (none when dropped), the sample limit (0 disables it), and which bodies can be
      compressed. */
  datatype Scraper = Scraper(
    parse: (ScrapeBody, i64) -> Option<seq<TimeSeries>>,
    finalize: seq<Label> -> Option<seq<Label>>,
    sampleLimit: nat,
    compresses: Text -> bool)

  /** One round of the scrape loop: a fetched body or a fetch error, at its start time. */
  datatype Round = Fetched(body: ScrapeBody, startMs: i64) | FetchError(startMs: i64)

  /** What a round emits: nothing when it fails, and then no body is retained. */
  datatype Outcome = Outcome(batch: seq<TimeSeries>, retained: Option<ScrapeBody>, startMs: i64)

  /** `finalize_series_labels` over a parsed body; dropped series are not emitted. */
  function Emitted(sc: Scraper, series: seq<TimeSeries>): seq<TimeSeries> {
    if series == [] then []
    else
      (match sc.finalize(series[0].labels)
       case Some(labels) => [series[0].(labels := labels)]
       case None => []) + Emitted(sc, series[1..])
  }

  /** The scraped part of `scrape_once`. */
  function ScrapeOnce(sc: Scraper, round: Round): Outcome {
    match round
    case FetchError(startMs) => Outcome([], None, startMs)
    case Fetched(body, startMs) =>
      match sc.parse(body, startMs)
      case None => Outcome([], None, startMs)
      case Some(series) =>
        if sc.sampleLimit > 0 && |series| > sc.sampleLimit then Outcome([], None, startMs)
        else Outcome(Emitted(sc, series), Some(body), startMs)
  }

  /** Identities of the series stamped with the scrape time; explicit timestamps are exempt. */
  function TrackedIn(batch: seq<TimeSeries>, startMs: i64): set<u64> {
    set i | 0 <= i < |batch| && batch[i].sample.timestamp == startMs :: batch[i].identityHash
  }

  /** The identities a round leaves tracked. */
  function TrackedBy(sc: Scraper, round: Round): set<u64> {
    var outcome := ScrapeOnce(sc, round);
    TrackedIn(outcome.batch, outcome.startMs)
  }

  // ----- the lazy tracker

  datatype Tracker = Tracker(retained: Option<(ScrapeBody, i64)>, ids: set<u64>)

  const EMPTY_TRACKER := Tracker(None, {})

  function StaleSeries(labels: seq<Label>, timestamp: i64): TimeSeries {
    TimeSeries(labels, Sample(STALE_NAN_BITS, timestamp), 0, None)
  }

  /** A marker with the identity it ends. */
  type Marker = (u64, TimeSeries)

  /** Re-derivation from the retained body's series: the first series of each wanted identity
      that carries the body's own scrape time and is not dropped. */
  function Rederive(sc: Scraper, series: seq<TimeSeries>, wanted: set<u64>, bodyMs: i64, timestamp: i64): seq<Marker> {
    if series == [] then []
    else
      var single := series[0];
      if single.sample.timestamp == bodyMs && single.identityHash in wanted && sc.finalize(single.labels).Some? then
        [(single.identityHash, StaleSeries(sc.finalize(single.labels).value, timestamp))]
          + Rederive(sc, series[1..], wanted - {single.identityHash}, bodyMs, timestamp)
      else
        Rederive(sc, series[1..], wanted, bodyMs, timestamp)
  }

  function Markers(sc: Scraper, tracker: Tracker, vanished: set<u64>, timestamp: i64): seq<Marker> {
    if vanished == {} || tracker.retained.None? then []
    else
      var (body, bodyMs) := tracker.retained.value;
      match sc.parse(body, bodyMs)
      case None => []
      case Some(series) => Rederive(sc, series, vanished, bodyMs, timestamp)
  }

  /** `advance`: the body is only replaced when the identities changed or none is held; a body
      that cannot be compressed is not held. */
  function Advance(sc: Scraper, tracker: Tracker, outcome: Outcome): Tracker {
    var current := TrackedIn(outcome.batch, outcome.startMs);
    match outcome.retained
    case None => Tracker(None, current)
    case Some(body) =>
      if tracker.retained.None? || tracker.ids != current then
        Tracker(if sc.compresses(body.bytes) then Some((body, outcome.startMs)) else None, current)
      else Tracker(tracker.retained, current)
  }

  function AdvanceMarkers(sc: Scraper, tracker: Tracker, outcome: Outcome): seq<Marker> {
    Markers(sc, tracker, tracker.ids - TrackedIn(outcome.batch, outcome.startMs), outcome.startMs)
  }

  /** The tracker after `rounds`. */
  function After(sc: Scraper, rounds: seq<Round>): Tracker {
    if rounds == [] then EMPTY_TRACKER
    else Advance(sc, After(sc, rounds[..|rounds| - 1]), ScrapeOnce(sc, rounds[|rounds| - 1]))
  }

  /** The markers round `k` sends. */
  function MarkersAt(sc: Scraper, rounds: seq<Round>, k: nat): seq<Marker>
    requires k < |rounds|
  {
    AdvanceMarkers(sc, After(sc, rounds[..k]), ScrapeOnce(sc, rounds[k]))
  }

  /** The markers sent when the target is removed after `rounds`. */
  function MarkersAtRemoval(sc: Scraper, rounds: seq<Round>, timestamp: i64): seq<Marker> {
    var tracker := After(sc, rounds);
    Markers(sc, tracker, tracker.ids, timestamp)
  }

  // ----- what determinism gives

  /** `memory` says which raw labels an identity stands for; a body's series agree with it. */
  ghost predicate Remembered(sc: Scraper, memory: u64 -> seq<Label>, body: ScrapeBody, startMs: i64) {
    sc.parse(body, startMs).Some? ==>
      forall i | 0 <= i < |sc.parse(body, startMs).value| ::
        sc.parse(body, startMs).value[i].labels == memory(sc.parse(body, startMs).value[i].identityHash)
  }

  /** No two identities of the run share a hash with different labels. */
  ghost predicate CollisionFree(sc: Scraper, memory: u64 -> seq<Label>, rounds: seq<Round>) {
    forall k | 0 <= k < |rounds| :: rounds[k].Fetched? ==> Remembered(sc, memory, rounds[k].body, rounds[k].startMs)
  }

  /** An identity some series of `series` can be re-derived for. */
  ghost predicate Derivable(sc: Scraper, series: seq<TimeSeries>, bodyMs: i64, id: u64) {
    exists i | 0 <= i < |series| ::
      && series[i].sample.timestamp == bodyMs && series[i].identityHash == id
      && sc.finalize(series[i].labels).Some?
  }

  lemma DerivableHead(sc: Scraper, series: seq<TimeSeries>, bodyMs: i64, id: u64)
    requires series != []
    ensures Derivable(sc, series, bodyMs, id) <==>
      || (series[0].sample.timestamp == bodyMs && series[0].identityHash == id && sc.finalize(series[0].labels).Some?)
      || Derivable(sc, series[1..], bodyMs, id)
  {
    var tail := series[1..];
    assert forall i | 0 <= i < |tail| :: tail[i] == series[i + 1];
    if Derivable(sc, series, bodyMs, id) {
      var i :| 0 <= i < |series| && series[i].sample.timestamp == bodyMs && series[i].identityHash == id
        && sc.finalize(series[i].labels).Some?;
      assert i > 0 ==> tail[i - 1] == series[i];
    }
    if Derivable(sc, tail, bodyMs, id) {
      var i :| 0 <= i < |tail| && tail[i].sample.timestamp == bodyMs && tail[i].identityHash == id
        && sc.finalize(tail[i].labels).Some?;
      assert series[i + 1] == tail[i];
    }
  }

  /** What a body's batch tracks is what can be re-derived from it. */
  lemma {:induction false} TrackedIsDerivable(sc: Scraper, series: seq<TimeSeries>, bodyMs: i64, id: u64)
    ensures id in TrackedIn(Emitted(sc, series), bodyMs) <==> Derivable(sc, series, bodyMs, id)
  {
    if series != [] {
      TrackedIsDerivable(sc, series[1..], bodyMs, id);
      DerivableHead(sc, series, bodyMs, id);
      var head := match sc.finalize(series[0].labels)
        case Some(labels) => [series[0].(labels := labels)]
        case None => [];
      TrackedAppend(head, Emitted(sc, series[1..]), bodyMs);
      assert Emitted(sc, series) == head + Emitted(sc, series[1..]);
      if head != [] {
        TrackedOne(head[0], bodyMs);
      }
    }
  }

  lemma TrackedOne(series: TimeSeries, startMs: i64)
    ensures TrackedIn([series], startMs) ==
      if series.sample.timestamp == startMs then {series.identityHash} else {}
  {
    assert [series][0] == series;
  }

  lemma TrackedAppend(a: seq<TimeSeries>, b: seq<TimeSeries>, startMs: i64)
    ensures TrackedIn(a + b, startMs) == TrackedIn(a, startMs) + TrackedIn(b, startMs)
  {
    var all := a + b;
    forall id | id in TrackedIn(all, startMs)
      ensures id in TrackedIn(a, startMs) + TrackedIn(b, startMs)
    {
      var i :| 0 <= i < |all| && all[i].sample.timestamp == startMs && all[i].identityHash == id;
      assert i < |a| ==> a[i] == all[i];
      assert i >= |a| ==> b[i - |a|] == all[i];
    }
    forall id | id in TrackedIn(a, startMs)
      ensures id in TrackedIn(all, startMs)
    {
      var i :| 0 <= i < |a| && a[i].sample.timestamp == startMs && a[i].identityHash == id;
      assert all[i] == a[i];
    }
    forall id | id in TrackedIn(b, startMs)
      ensures id in TrackedIn(all, startMs)
    {
      var i :| 0 <= i < |b| && b[i].sample.timestamp == startMs && b[i].identityHash == id;
      assert all[|a| + i] == b[i];
    }
  }

  function Ids(markers: seq<Marker>): set<u64> {
    set i | 0 <= i < |markers| :: markers[i].0
  }

  /** One marker for each identity in `gone` and for no other: the final labels the identity stands
      for, the staleness NaN at `timestamp`, and nothing else. */
  ghost predicate OneEach(
    sc: Scraper, memory: u64 -> seq<Label>, markers: seq<Marker>, gone: set<u64>, timestamp: i64)
  {
    && |markers| == |gone|
    && Ids(markers) == gone
    && (forall i, j | 0 <= i < j < |markers| :: markers[i].0 != markers[j].0)
    && (forall i | 0 <= i < |markers| ::
        && sc.finalize(memory(markers[i].0)).Some?
        && markers[i].1.labels == sc.finalize(memory(markers[i].0)).value
        && markers[i].1.sample == Sample(0x7ff0_0000_0000_0002, timestamp)
        && markers[i].1.histogram.None? && markers[i].1.identityHash == 0)
  }

  lemma OneEachCons(
    sc: Scraper, memory: u64 -> seq<Label>, first: Marker, rest: seq<Marker>, gone: set<u64>, timestamp: i64)
    requires first.0 !in gone && OneEach(sc, memory, rest, gone, timestamp)
    requires sc.finalize(memory(first.0)).Some?
    requires first.1 == StaleSeries(sc.finalize(memory(first.0)).value, timestamp)
    ensures OneEach(sc, memory, [first] + rest, gone + {first.0}, timestamp)
  {
    hide Ids;
    var all := [first] + rest;
    IdsCons(first, rest);
    assert forall i | 0 < i < |all| :: all[i] == rest[i - 1];
    forall i | 0 <= i < |rest|
      ensures rest[i].0 != first.0
    {
      IdIn(rest, i);
    }
  }

  lemma IdIn(markers: seq<Marker>, i: nat)
    requires i < |markers|
    ensures markers[i].0 in Ids(markers)
  {
  }

  lemma IdsCons(first: Marker, rest: seq<Marker>)
    ensures Ids([first] + rest) == Ids(rest) + {first.0}
  {
    var all := [first] + rest;
    assert all[0] == first && forall i | 0 <= i < |rest| :: all[i + 1] == rest[i];
    forall id | id in Ids(all)
      ensures id in Ids(rest) + {first.0}
    {
      var i :| 0 <= i < |all| && all[i].0 == id;
      assert i > 0 ==> rest[i - 1].0 == id;
    }
  }

  lemma NothingDerivable(sc: Scraper, bodyMs: i64, id: u64)
    ensures !Derivable(sc, [], bodyMs, id)
  {
  }

  lemma NoneOfEach(sc: Scraper, memory: u64 -> seq<Label>, timestamp: i64)
    ensures OneEach(sc, memory, [], {}, timestamp)
  {
  }

  /** Re-deriving identities that all can be re-derived gives one marker each. */
  lemma {:induction false} RederiveOneEach(
    sc: Scraper, memory: u64 -> seq<Label>, series: seq<TimeSeries>, wanted: set<u64>, bodyMs: i64, timestamp: i64)
    requires forall i | 0 <= i < |series| :: series[i].labels == memory(series[i].identityHash)
    requires forall id | id in wanted :: Derivable(sc, series, bodyMs, id)
    ensures OneEach(sc, memory, Rederive(sc, series, wanted, bodyMs, timestamp), wanted, timestamp)
  {
    hide Derivable, OneEach;
    if series != [] {
      var single := series[0];
      forall id: u64
        ensures Derivable(sc, series, bodyMs, id) <==>
          || (single.sample.timestamp == bodyMs && single.identityHash == id && sc.finalize(single.labels).Some?)
          || Derivable(sc, series[1..], bodyMs, id)
      {
        DerivableHead(sc, series, bodyMs, id);
      }
      if single.sample.timestamp == bodyMs && single.identityHash in wanted && sc.finalize(single.labels).Some? {
        var less := wanted - {single.identityHash};
        RederiveOneEach(sc, memory, series[1..], less, bodyMs, timestamp);
        OneEachCons(
          sc, memory, (single.identityHash, StaleSeries(sc.finalize(single.labels).value, timestamp)),
          Rederive(sc, series[1..], less, bodyMs, timestamp), less, timestamp);
        assert less + {single.identityHash} == wanted;
      } else {
        RederiveOneEach(sc, memory, series[1..], wanted, bodyMs, timestamp);
      }
    } else {
      forall id | id in wanted
        ensures false
      {
        NothingDerivable(sc, bodyMs, id);
      }
      assert wanted == {};
      NoneOfEach(sc, memory, timestamp);
    }
  }
}
