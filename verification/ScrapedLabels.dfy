/** The label invariant from the parser to the wire (`src/parser.rs:334-486`, `src/scrape.rs:899-917`). */
module ScrapedLabels {
  import opened Basics
  import opened Names
  import opened Ascii
  import opened Model
  import opened LabelLists
  import opened ExpositionText
  import opened ExpositionGrammar
  import opened ExpositionRoundTrip
  import opened Relabel
  import opened LabelPipeline

  lemma AppendKeepsDistinct(labels: seq<Label>, pair: Label)
    requires DistinctNames(labels) && !HasName(labels, pair.name)
    ensures DistinctNames(labels + [pair])
  {
  }

  /** Names in a label set stay distinct, keep to the cap, and extend what was there. */
  lemma {:induction false} LabelSetInvariant(s: Text, labels: seq<Label>)
    requires DistinctNames(labels) && |labels| <= MAX_LABELS_PER_SERIES && LabelSet(s, labels).Ok?
    ensures
      var found := LabelSet(s, labels).value.0;
      DistinctNames(found) && |found| <= MAX_LABELS_PER_SERIES && labels <= found
    decreases |s|
  {
    hide SkipSpaces, QuotedValue, HasName, NameRun, DistinctNames;
    var start := SkipSpaces(s);
    if start[0] != CLOSE_BRACE {
      var (pair, rest) := OneLabel(start, labels).value;
      AppendKeepsDistinct(labels, pair);
      var next := SkipSpaces(rest);
      if next[0] == COMMA {
        LabelSetInvariant(next[1..], labels + [pair]);
      }
    }
  }

  /** A parsed series has `__name__` first, at most 128 labels, and no name twice. */
  lemma ParsedLabels(line: Text, tokens: Tokens, defaultMs: i64, honor: bool)
    requires Line(line, tokens, defaultMs, honor).Ok? && Line(line, tokens, defaultMs, honor).value.Some?
    ensures
      var labels := Line(line, tokens, defaultMs, honor).value.value.labels;
      && labels != [] && labels[0].name == NAME_LABEL
      && |labels| <= 128 && DistinctNames(labels)
  {
    hide SkipSpaces, LabelSet, SampleTail, NameRun, IsNameStart;
    ReservedName();
    var s := SkipSpaces(line);
    var n := 1 + NameRun(s[1..], true);
    var named := [Label(METRIC_NAME_LABEL, s[..n])];
    var after := SkipSpaces(s[n..]);
    if after != [] && after[0] == OPEN_BRACE {
      LabelSetInvariant(after[1..], named);
    }
  }

  /** The pipeline's label invariant: whatever the rules and settings, a parsed series is
      dropped or leaves with labels strictly increasing by name. */
  lemma PipelineInvariant(
    line: Text, tokens: Tokens, defaultMs: i64, honor: bool, target: Target, library: Library)
    requires Line(line, tokens, defaultMs, honor).Ok? && Line(line, tokens, defaultMs, honor).value.Some?
    ensures
      var sent := Finalize(Line(line, tokens, defaultMs, honor).value.value.labels, target, library);
      sent.Some? ==> StrictlySorted(sent.value)
  {
    hide Line, Finalize;
    ParsedLabels(line, tokens, defaultMs, honor);
    FinalizeSorts(Line(line, tokens, defaultMs, honor).value.value.labels, target, library);
  }

  // ----- the target label loses on series that are really parsed

  /** A sample line with these labels and a blank only before its value. */
  function PlainLine(name: Text, labels: seq<Label>, token: Text): Spelling {
    var pairs := seq(|labels|, i requires 0 <= i < |labels| => Pair([], labels[i], [], [], []));
    Spelling([], name, [], Some(Braces(pairs, false, [])), [SPACE], token, None, [], None)
  }

  /** The line that parses to the labels of `Spoiler`. */
  function SpoilerLine(targets: seq<Label>, i: nat, j: nat, token: Text): Spelling
    requires i < j < |targets|
  {
    var raw := Spoiler(targets, i, j);
    PlainLine(raw[0].value, raw[1..], token)
  }

  /** A spoiler's labels can be spelled. */
  lemma SpoilerIsSpelled(targets: seq<Label>, i: nat, j: nat, token: Text, tokens: Tokens)
    requires i < j < |targets| && LabelName(targets[j].name)
    requires Word(token) && tokens.value(token).Some?
    ensures SpellingOk(SpoilerLine(targets, i, j, token), tokens)
  {
    ReservedName();
  }

  /** Whenever a target label is shadowed by a later one whose name a line can carry, some line
      parses to a series on which the shadowed target label does not win. */
  lemma TargetLosesOnALine(
    targets: seq<Label>, i: nat, j: nat, token: Text, tokens: Tokens, defaultMs: i64, honor: bool)
    requires DistinctNames(targets) && i < j < |targets| && targets[i].name == Exported(targets[j].name)
    requires LabelName(targets[j].name) && Word(token) && tokens.value(token).Some?
    ensures
      var parsed := Line(PrintLine(SpoilerLine(targets, i, j, token)), tokens, defaultMs, honor);
      && parsed.Ok? && parsed.value.Some?
      && parsed.value.value.labels == Spoiler(targets, i, j)
      && !TargetsWin(targets, MergeTargets(parsed.value.value.labels, targets, false))
  {
    hide Line, PrintLine, MergeTargets, DistinctNames, TargetsWin, Exported, SpellingOk, Word, LabelName;
    SpoilerWins(targets, i, j);
    SpoilerIsSpelled(targets, i, j, token, tokens);
    LineRoundTrip(SpoilerLine(targets, i, j, token), tokens, defaultMs, honor);
    SpoilerLabels(targets, i, j);
  }

  lemma SpoilerLabels(targets: seq<Label>, i: nat, j: nat)
    requires i < j < |targets|
    ensures
      var raw := Spoiler(targets, i, j);
      raw == [Label(NAME_LABEL, raw[0].value)] + raw[1..]
  {
    ReservedName();
  }
}
