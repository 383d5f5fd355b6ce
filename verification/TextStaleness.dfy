/**
 Staleness of text-format targets: the label set of an identity is a function of its bytes
 (`src/parser.rs:186-251`), so the only way to a wrong marker is a hash collision.
 */
module TextStaleness {
  import opened Basics
  import opened Model
  import opened ExpositionText
  import opened ExpositionLaws
  import opened StalenessModel
  import opened StalenessTheorems
  import opened Relabel
  import LabelPipeline

  /** What decides a target's series, and which bodies its tracker can hold. */
  datatype TextTarget = TextTarget(
    tokens: Tokens,
    honorTimestamps: bool,
    protobuf: (Text, i64) -> Option<seq<TimeSeries>>,
    pipeline: LabelPipeline.Target,
    library: Library,
    sampleLimit: nat,
    compresses: Text -> bool)

  /** All bodies of the run are in the text format. */
  ghost predicate AllText(rounds: seq<Round>) {
    forall k | 0 <= k < |rounds| :: rounds[k].Fetched? ==> rounds[k].body.format.TextFormat?
  }

  /** The target's pipeline: the text parser, then `finalize_series_labels`. */
  function TextScraper(t: TextTarget): Scraper {
    Scraper(
      (body: ScrapeBody, startMs: i64) =>
        if body.format.ProtobufFormat? then t.protobuf(body.bytes, startMs)
        else
          match Body(body.bytes, 1, t.tokens, startMs, t.honorTimestamps)
          case Ok(series) => Some(series)
          case Err(_) => None,
      (raw: seq<Label>) => LabelPipeline.Finalize(raw, t.pipeline, t.library),
      t.sampleLimit,
      t.compresses)
  }

  /** The identity bytes of a body's series lines. */
  function BodyIdentities(body: Text): set<Text>
    decreases |body|
  {
    if body == [] then {}
    else
      (match IdentityOf(WithoutReturn(body[..LineEnd(body)]))
       case Some(identity) => {identity}
       case None => {}) + BodyIdentities(AfterLine(body))
  }

  function RunIdentities(rounds: seq<Round>): set<Text> {
    set k, identity |
      0 <= k < |rounds| && rounds[k].Fetched? && identity in BodyIdentities(rounds[k].body.bytes) :: identity
  }

  /** No two of `identities` share a hash. */
  ghost predicate NoCollision(hash: Text -> u64, identities: set<Text>) {
    forall a, b | a in identities && b in identities && hash(a) == hash(b) :: a == b
  }

  /** The labels behind a hash: those of the identity among `identities` that has it. */
  ghost function LabelsBehind(hash: Text -> u64, identities: set<Text>, id: u64): seq<Label> {
    if a :| a in identities && hash(a) == id then LabelsOf(a).GetOr([]) else []
  }

  ghost function Memory(hash: Text -> u64, identities: set<Text>): u64 -> seq<Label> {
    (id: u64) => LabelsBehind(hash, identities, id)
  }

  /** A series' labels are those its identity stands for, and its identity is one of the body's. */
  ghost predicate FromIdentity(tokens: Tokens, identities: set<Text>, single: TimeSeries) {
    exists a | a in identities :: tokens.hash(a) == single.identityHash && LabelsOf(a) == Some(single.labels)
  }

  lemma FromIdentityGrows(tokens: Tokens, small: set<Text>, large: set<Text>, single: TimeSeries)
    requires small <= large && FromIdentity(tokens, small, single)
    ensures FromIdentity(tokens, large, single)
  {
  }

  lemma {:induction false} SeriesHaveIdentities(
    body: Text, lineNo: nat, tokens: Tokens, startMs: i64, honor: bool, i: nat)
    requires Body(body, lineNo, tokens, startMs, honor).Ok?
    requires i < |Body(body, lineNo, tokens, startMs, honor).value|
    ensures FromIdentity(tokens, BodyIdentities(body), Body(body, lineNo, tokens, startMs, honor).value[i])
    decreases |body|
  {
    hide Line, LabelsOf, LineEnd, AfterLine, WithoutReturn, FromIdentity, IdentityOf;
    var line := WithoutReturn(body[..LineEnd(body)]);
    var found := Line(line, tokens, startMs, honor).value;
    var rest := Body(AfterLine(body), lineNo + 1, tokens, startMs, honor).value;
    var first := if found.Some? then 1 else 0;
    if i < first {
      LineHasIdentity(line, tokens, startMs, honor);
      FromIdentityGrows(tokens, {IdentityOf(line).value}, BodyIdentities(body), found.value);
    } else {
      SeriesHaveIdentities(AfterLine(body), lineNo + 1, tokens, startMs, honor, i - first);
      FromIdentityGrows(tokens, BodyIdentities(AfterLine(body)), BodyIdentities(body), rest[i - first]);
    }
  }

  lemma LineHasIdentity(line: Text, tokens: Tokens, startMs: i64, honor: bool)
    requires Line(line, tokens, startMs, honor).Ok? && Line(line, tokens, startMs, honor).value.Some?
    ensures IdentityOf(line).Some?
    ensures FromIdentity(tokens, {IdentityOf(line).value}, Line(line, tokens, startMs, honor).value.value)
  {
    hide Line, LabelsOf, IdentityOf;
    IdentityLocality(line, tokens, startMs, honor);
    assert IdentityOf(line).value in {IdentityOf(line).value};
  }

  lemma BehindHash(hash: Text -> u64, identities: set<Text>, a: Text)
    requires a in identities && NoCollision(hash, identities) && LabelsOf(a).Some?
    ensures LabelsBehind(hash, identities, hash(a)) == LabelsOf(a).value
  {
    hide LabelsOf;
  }

  /** Unless two identities of the run collide, a series' hash tells its labels, in every body
      of the run and whatever the time it is parsed at. */
  lemma TextIsCollisionFree(t: TextTarget, rounds: seq<Round>)
    requires AllText(rounds) && NoCollision(t.tokens.hash, RunIdentities(rounds))
    ensures CollisionFree(
      TextScraper(t), Memory(t.tokens.hash, RunIdentities(rounds)), rounds)
  {
    hide LabelsBehind, NoCollision, LabelsOf, Body, BodyIdentities;
    var ids := RunIdentities(rounds);
    forall k | 0 <= k < |rounds| && rounds[k].Fetched?
      ensures Remembered(TextScraper(t), Memory(t.tokens.hash, ids), rounds[k].body, rounds[k].startMs)
    {
      var parsed := Body(rounds[k].body.bytes, 1, t.tokens, rounds[k].startMs, t.honorTimestamps);
      if parsed.Ok? {
        forall i | 0 <= i < |parsed.value|
          ensures parsed.value[i].labels == LabelsBehind(t.tokens.hash, ids, parsed.value[i].identityHash)
        {
          SeriesHaveIdentities(rounds[k].body.bytes, 1, t.tokens, rounds[k].startMs, t.honorTimestamps, i);
          var a :| a in BodyIdentities(rounds[k].body.bytes) && t.tokens.hash(a) == parsed.value[i].identityHash
            && LabelsOf(a) == Some(parsed.value[i].labels);
          BehindHash(t.tokens.hash, ids, a);
        }
      }
    }
  }

  /** Staleness over whole runs of a text target: each round's markers are one for each series
      gone, with the final labels read back from the identity's bytes; while no body is held,
      which takes a body that did not compress, no marker is sent. */
  lemma TextMarkersExactly(t: TextTarget, rounds: seq<Round>, k: nat)
    requires k < |rounds| && AllText(rounds) && NoCollision(t.tokens.hash, RunIdentities(rounds))
    ensures
      var sc := TextScraper(t);
      && (LastCompresses(sc, rounds[..k]) || After(sc, rounds[..k]).retained.Some? ==>
        OneEach(
          sc, Memory(t.tokens.hash, RunIdentities(rounds)),
          MarkersAt(sc, rounds, k), Gone(sc, rounds, k), rounds[k].startMs))
      && (After(sc, rounds[..k]).retained.None? ==> MarkersAt(sc, rounds, k) == [])
  {
    hide OneEach, CollisionFree, LastCompresses, After, MarkersAt, Gone;
    TextIsCollisionFree(t, rounds);
    MarkersExactly(TextScraper(t), Memory(t.tokens.hash, RunIdentities(rounds)), rounds, k);
  }

  /** Removing a text target ends every series it still tracks, and nothing else. */
  lemma TextRemovalExactly(t: TextTarget, rounds: seq<Round>, timestamp: i64)
    requires AllText(rounds) && NoCollision(t.tokens.hash, RunIdentities(rounds))
    ensures
      var sc := TextScraper(t);
      && (LastCompresses(sc, rounds) || After(sc, rounds).retained.Some? ==>
        OneEach(
          sc, Memory(t.tokens.hash, RunIdentities(rounds)),
          MarkersAtRemoval(sc, rounds, timestamp), TrackedAfter(sc, rounds), timestamp))
      && (After(sc, rounds).retained.None? ==> MarkersAtRemoval(sc, rounds, timestamp) == [])
  {
    hide OneEach, CollisionFree, LastCompresses, After, MarkersAtRemoval, TrackedAfter;
    TextIsCollisionFree(t, rounds);
    RemovalExactly(TextScraper(t), Memory(t.tokens.hash, RunIdentities(rounds)), rounds, timestamp);
  }
}
