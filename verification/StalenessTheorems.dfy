/** What staleness tracking guarantees over whole runs of the scrape loop. */
module StalenessTheorems {
  import opened Basics
  import opened Model
  import opened StalenessModel

  /** The identities tracked after `rounds`, read off the last round alone. */
  function TrackedAfter(sc: Scraper, rounds: seq<Round>): set<u64> {
    if rounds == [] then {} else TrackedBy(sc, rounds[|rounds| - 1])
  }

  /** The identities that round `k` no longer emits but the round before did. */
  function Gone(sc: Scraper, rounds: seq<Round>, k: nat): set<u64>
    requires k < |rounds|
  {
    TrackedAfter(sc, rounds[..k]) - TrackedBy(sc, rounds[k])
  }

  /** The last fetched body is not one that failed to compress. */
  ghost predicate LastCompresses(sc: Scraper, rounds: seq<Round>) {
    rounds == [] || (rounds[|rounds| - 1].Fetched? ==> sc.compresses(rounds[|rounds| - 1].body.bytes))
  }

  /** No body of the run fails to compress. */
  ghost predicate Compressible(sc: Scraper, rounds: seq<Round>) {
    forall k | 0 <= k < |rounds| :: rounds[k].Fetched? ==> sc.compresses(rounds[k].body.bytes)
  }

  lemma CompressibleLast(sc: Scraper, rounds: seq<Round>, k: nat)
    requires k <= |rounds| && Compressible(sc, rounds)
    ensures LastCompresses(sc, rounds[..k])
  {
    assert k > 0 ==> rounds[..k][k - 1] == rounds[k - 1];
  }

  /** The lazy tracker's state: it tracks what the last round emitted, and the body it holds,
      however old, is one of the run's whose own batch tracked exactly the same identities. */
  ghost predicate Faithful(sc: Scraper, rounds: seq<Round>, tracker: Tracker) {
    && tracker.ids == TrackedAfter(sc, rounds)
    && match tracker.retained
       case None => LastCompresses(sc, rounds) ==> tracker.ids == {}
       case Some((body, startMs)) =>
         && Fetched(body, startMs) in rounds
         && ScrapeOnce(sc, Fetched(body, startMs)).retained.Some?
         && TrackedBy(sc, Fetched(body, startMs)) == tracker.ids
  }

  lemma FailureTracksNothing(sc: Scraper, round: Round)
    ensures ScrapeOnce(sc, round).retained.None? ==> TrackedBy(sc, round) == {}
    ensures ScrapeOnce(sc, round).retained.Some? ==>
      round.Fetched? && ScrapeOnce(sc, round).retained.value == round.body
    ensures ScrapeOnce(sc, round).startMs == round.startMs
  {
  }

  /** In every reachable state the retained body, possibly many scrapes old, tracks exactly the
      identities the tracker holds. */
  lemma {:induction false} ReachableIsFaithful(sc: Scraper, rounds: seq<Round>)
    ensures Faithful(sc, rounds, After(sc, rounds))
  {
    if rounds != [] {
      hide TrackedBy, ScrapeOnce, TrackedIn;
      var init, last := rounds[..|rounds| - 1], rounds[|rounds| - 1];
      ReachableIsFaithful(sc, init);
      FailureTracksNothing(sc, last);
      TrackedByIs(sc, last);
      assert rounds == init + [last];
    }
  }

  lemma TrackedByIs(sc: Scraper, round: Round)
    ensures TrackedBy(sc, round) == TrackedIn(ScrapeOnce(sc, round).batch, ScrapeOnce(sc, round).startMs)
  {
  }

  lemma RetainedParses(sc: Scraper, body: ScrapeBody, startMs: i64)
    requires ScrapeOnce(sc, Fetched(body, startMs)).retained.Some?
    ensures sc.parse(body, startMs).Some?
    ensures TrackedBy(sc, Fetched(body, startMs)) == TrackedIn(Emitted(sc, sc.parse(body, startMs).value), startMs)
  {
  }

  /** Asked for any identities it tracks, a faithful tracker re-derives one marker each. */
  lemma MarkersOneEach(
    sc: Scraper, memory: u64 -> seq<Label>, rounds: seq<Round>, tracker: Tracker, vanished: set<u64>, timestamp: i64)
    requires CollisionFree(sc, memory, rounds) && Faithful(sc, rounds, tracker) && vanished <= tracker.ids
    requires tracker.retained.Some? || LastCompresses(sc, rounds)
    ensures OneEach(sc, memory, Markers(sc, tracker, vanished, timestamp), vanished, timestamp)
  {
    hide TrackedBy, ScrapeOnce, TrackedIn, Emitted, Rederive, TrackedAfter;
    if vanished != {} && tracker.retained.Some? {
      var (body, bodyMs) := tracker.retained.value;
      var k :| 0 <= k < |rounds| && rounds[k] == Fetched(body, bodyMs);
      RetainedParses(sc, body, bodyMs);
      var series := sc.parse(body, bodyMs).value;
      assert Remembered(sc, memory, body, bodyMs);
      forall id | id in vanished
        ensures Derivable(sc, series, bodyMs, id)
      {
        TrackedIsDerivable(sc, series, bodyMs, id);
      }
      RederiveOneEach(sc, memory, series, vanished, bodyMs, timestamp);
    }
  }

  lemma CollisionFreePrefix(sc: Scraper, memory: u64 -> seq<Label>, rounds: seq<Round>, k: nat)
    requires k <= |rounds| && CollisionFree(sc, memory, rounds)
    ensures CollisionFree(sc, memory, rounds[..k])
  {
    assert forall i | 0 <= i < k :: rounds[..k][i] == rounds[i];
  }

  /** Staleness over whole runs: each round sends exactly one marker for each identity the
      round before left tracked and this one does not emit, stamped with this round's time,
      and none for any other identity. Only right after a body that did not compress may no
      body be held, and then no marker is sent at all. */
  lemma MarkersExactly(sc: Scraper, memory: u64 -> seq<Label>, rounds: seq<Round>, k: nat)
    requires k < |rounds| && CollisionFree(sc, memory, rounds)
    ensures LastCompresses(sc, rounds[..k]) || After(sc, rounds[..k]).retained.Some? ==>
      OneEach(sc, memory, MarkersAt(sc, rounds, k), Gone(sc, rounds, k), rounds[k].startMs)
    ensures After(sc, rounds[..k]).retained.None? ==> MarkersAt(sc, rounds, k) == []
  {
    hide OneEach, CollisionFree, ScrapeOnce, TrackedIn, Markers, After, Faithful, LastCompresses;
    var before := rounds[..k];
    NoBodyNoMarkers(sc, After(sc, before), Gone(sc, rounds, k), rounds[k].startMs);
    CollisionFreePrefix(sc, memory, rounds, k);
    ReachableIsFaithful(sc, before);
    FaithfulIds(sc, before, After(sc, before));
    FailureTracksNothing(sc, rounds[k]);
    if LastCompresses(sc, before) || After(sc, before).retained.Some? {
      MarkersOneEach(sc, memory, before, After(sc, before), Gone(sc, rounds, k), rounds[k].startMs);
    }
  }

  lemma NoBodyNoMarkers(sc: Scraper, tracker: Tracker, vanished: set<u64>, timestamp: i64)
    ensures tracker.retained.None? ==> Markers(sc, tracker, vanished, timestamp) == []
  {
  }

  lemma FaithfulIds(sc: Scraper, rounds: seq<Round>, tracker: Tracker)
    requires Faithful(sc, rounds, tracker)
    ensures tracker.ids == TrackedAfter(sc, rounds)
  {
  }

  /** Removing the target ends everything the last round left tracked, and nothing else. */
  lemma RemovalExactly(sc: Scraper, memory: u64 -> seq<Label>, rounds: seq<Round>, timestamp: i64)
    requires CollisionFree(sc, memory, rounds)
    ensures LastCompresses(sc, rounds) || After(sc, rounds).retained.Some? ==>
      OneEach(sc, memory, MarkersAtRemoval(sc, rounds, timestamp), TrackedAfter(sc, rounds), timestamp)
    ensures After(sc, rounds).retained.None? ==> MarkersAtRemoval(sc, rounds, timestamp) == []
  {
    hide OneEach, CollisionFree, ScrapeOnce, TrackedIn, Markers, After, LastCompresses;
    ReachableIsFaithful(sc, rounds);
    NoBodyNoMarkers(sc, After(sc, rounds), After(sc, rounds).ids, timestamp);
    if LastCompresses(sc, rounds) || After(sc, rounds).retained.Some? {
      MarkersOneEach(sc, memory, rounds, After(sc, rounds), After(sc, rounds).ids, timestamp);
    }
  }

  // ----- what a round sends and keeps

  lemma EmittedNone(sc: Scraper)
    ensures Emitted(sc, []) == []
  {
  }

  lemma EmittedOne(sc: Scraper, single: TimeSeries)
    ensures Emitted(sc, [single]) == (
      match sc.finalize(single.labels)
      case Some(labels) => [TimeSeries(labels, single.sample, single.identityHash, single.histogram)]
      case None => [])
  {
    assert [single][1..] == [];
  }

  lemma EmittedHead(sc: Scraper, series: seq<TimeSeries>)
    requires series != []
    ensures Emitted(sc, series) == Emitted(sc, [series[0]]) + Emitted(sc, series[1..])
  {
    EmittedOne(sc, series[0]);
  }

  /** Every series whose labels are kept is sent with its final labels and otherwise as parsed, in
      order, and no other. */
  lemma {:induction false} EmittedExactly(sc: Scraper, a: seq<TimeSeries>, b: seq<TimeSeries>, single: TimeSeries)
    ensures Emitted(sc, []) == []
    ensures Emitted(sc, [single]) == (
      match sc.finalize(single.labels)
      case Some(labels) => [TimeSeries(labels, single.sample, single.identityHash, single.histogram)]
      case None => [])
    ensures Emitted(sc, a + b) == Emitted(sc, a) + Emitted(sc, b)
  {
    hide Emitted;
    EmittedNone(sc);
    EmittedOne(sc, single);
    if a == [] {
      assert a + b == b;
    } else {
      EmittedExactly(sc, a[1..], b, single);
      assert (a + b)[1..] == a[1..] + b && (a + b)[0] == a[0];
      EmittedHead(sc, a);
      EmittedHead(sc, a + b);
      Regroup(Emitted(sc, [a[0]]), Emitted(sc, a[1..]), Emitted(sc, b));
    }
  }

  /** A round sends series and may retain its body exactly when it was fetched, parsed, and is
      within the sample limit, of which 0 is none. */
  lemma RoundOutcome(sc: Scraper, round: Round)
    ensures ScrapeOnce(sc, round).startMs == round.startMs
    ensures
      var outcome := ScrapeOnce(sc, round);
      if round.Fetched? && sc.parse(round.body, round.startMs).Some?
        && (sc.sampleLimit == 0 || |sc.parse(round.body, round.startMs).value| <= sc.sampleLimit)
      then
        && outcome.batch == Emitted(sc, sc.parse(round.body, round.startMs).value)
        && outcome.retained == Some(round.body)
      else
        outcome.batch == [] && outcome.retained == None
  {
    hide Emitted;
  }

  /** The body is kept, however old, as long as rounds succeed with the same identities, and is
      replaced by the round's own when they change. */
  lemma BodyKept(sc: Scraper, rounds: seq<Round>, round: Round)
    requires ScrapeOnce(sc, round).retained.Some?
    ensures
      var before, after := After(sc, rounds), After(sc, rounds + [round]);
      if before.retained.Some? && TrackedBy(sc, round) == TrackedAfter(sc, rounds) then
        after.retained == before.retained
      else
        after.retained == if sc.compresses(round.body.bytes) then Some((round.body, round.startMs)) else None
  {
    hide ScrapeOnce, TrackedIn, TrackedAfter, TrackedBy, LastCompresses;
    var all := rounds + [round];
    assert all[..|rounds|] == rounds && all[|all| - 1] == round;
    ReachableIsFaithful(sc, rounds);
    FailureTracksNothing(sc, round);
    TrackedByIs(sc, round);
  }

  // ----- the same labels an eager tracker would have stored

  /** An emitted series carries the final labels its identity stands for. */
  lemma {:induction false} EmittedLabels(sc: Scraper, memory: u64 -> seq<Label>, series: seq<TimeSeries>, i: nat)
    requires forall j | 0 <= j < |series| :: series[j].labels == memory(series[j].identityHash)
    requires i < |Emitted(sc, series)|
    ensures sc.finalize(memory(Emitted(sc, series)[i].identityHash)) == Some(Emitted(sc, series)[i].labels)
  {
    var tail := series[1..];
    assert forall j | 0 <= j < |tail| :: tail[j] == series[j + 1];
    if sc.finalize(series[0].labels).Some? {
      if i > 0 {
        EmittedLabels(sc, memory, tail, i - 1);
      }
    } else {
      assert Emitted(sc, series) == Emitted(sc, tail);
      EmittedLabels(sc, memory, tail, i);
    }
  }

  /** Lazy retention refines eager retention: every marker carries the very labels the previous
      round sent for its identity, although they are re-derived, possibly from an older body. */
  lemma MarkersCarrySentLabels(
    sc: Scraper, memory: u64 -> seq<Label>, rounds: seq<Round>, k: nat, m: nat, i: nat)
    requires 0 < k < |rounds| && CollisionFree(sc, memory, rounds)
    requires m < |MarkersAt(sc, rounds, k)| && i < |ScrapeOnce(sc, rounds[k - 1]).batch|
    requires ScrapeOnce(sc, rounds[k - 1]).batch[i].identityHash == MarkersAt(sc, rounds, k)[m].0
    ensures MarkersAt(sc, rounds, k)[m].1.labels == ScrapeOnce(sc, rounds[k - 1]).batch[i].labels
    ensures MarkersAt(sc, rounds, k)[m].1.sample == Sample(0x7ff0_0000_0000_0002, rounds[k].startMs)
    ensures MarkersAt(sc, rounds, k)[m].1.histogram.None?
  {
    hide MarkersAt, Gone;
    MarkersExactly(sc, memory, rounds, k);
    var previous := rounds[k - 1];
    var series := sc.parse(previous.body, previous.startMs).value;
    assert Remembered(sc, memory, previous.body, previous.startMs);
    EmittedLabels(sc, memory, series, i);
  }

  // ----- conservation

  /** Identities round `k` starts tracking. */
  function Arrived(sc: Scraper, rounds: seq<Round>, k: nat): set<u64>
    requires k < |rounds|
  {
    TrackedBy(sc, rounds[k]) - TrackedAfter(sc, rounds[..k])
  }

  function Arrivals(sc: Scraper, rounds: seq<Round>, n: nat): nat
    requires n <= |rounds|
  {
    if n == 0 then 0 else Arrivals(sc, rounds, n - 1) + |Arrived(sc, rounds, n - 1)|
  }

  function MarkersSent(sc: Scraper, rounds: seq<Round>, n: nat): nat
    requires n <= |rounds|
  {
    if n == 0 then 0 else MarkersSent(sc, rounds, n - 1) + |MarkersAt(sc, rounds, n - 1)|
  }

  /** Identities that went while no body was held, and so went without a marker. */
  function Unmarked(sc: Scraper, rounds: seq<Round>, n: nat): nat
    requires n <= |rounds|
  {
    if n == 0 then 0
    else
      Unmarked(sc, rounds, n - 1)
        + (if After(sc, rounds[..n - 1]).retained.None? then |Gone(sc, rounds, n - 1)| else 0)
  }

  lemma ExchangeSize(a: set<u64>, b: set<u64>)
    ensures |b| == |a| + |b - a| - |a - b|
  {
    assert a == (a * b) + (a - b);
    assert b == (a * b) + (b - a);
  }

  /** Arrivals minus markers is what is tracked, after every round, but for identities that went
      while no body was held: none as long as bodies compress. */
  lemma {:induction false} Conservation(sc: Scraper, memory: u64 -> seq<Label>, rounds: seq<Round>, n: nat)
    requires n <= |rounds| && CollisionFree(sc, memory, rounds)
    ensures Arrivals(sc, rounds, n) - MarkersSent(sc, rounds, n) - Unmarked(sc, rounds, n)
      == |TrackedAfter(sc, rounds[..n])|
    ensures After(sc, rounds[..n]).ids == TrackedAfter(sc, rounds[..n])
    ensures Compressible(sc, rounds) ==> Unmarked(sc, rounds, n) == 0
  {
    hide CollisionFree, MarkersAt, TrackedBy, After, Compressible, LastCompresses;
    ReachableIsFaithful(sc, rounds[..n]);
    if n > 0 {
      var k := n - 1;
      Conservation(sc, memory, rounds, k);
      MarkersExactly(sc, memory, rounds, k);
      ReachableIsFaithful(sc, rounds[..k]);
      if Compressible(sc, rounds) {
        CompressibleLast(sc, rounds, k);
      }
      assert rounds[..n][n - 1] == rounds[k];
      ExchangeSize(TrackedAfter(sc, rounds[..k]), TrackedBy(sc, rounds[k]));
    }
  }
}
