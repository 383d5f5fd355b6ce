/**
 The lines of the text format as what they spell (Prometheus exposition formats, section "Text
 format details"): where blanks may stand, what is optional, and what a spelling means.
 */
module ExpositionGrammar {
  import opened Basics
  import opened Names
  import opened Ascii
  import opened Model
  import opened ExpositionText

  // ----- label sets

  /** A label with the blanks around its parts. */
  datatype Pair = Pair(before: Text, entry: Label, beforeSign: Text, afterSign: Text, after: Text)

  /** A label set; a comma may follow its last label, and a blank the comma or, when there are no
      labels, the opening brace. */
  datatype Braces = Braces(pairs: seq<Pair>, comma: bool, pad: Text)

  /** A value with its backslashes, quotes and line feeds escaped. */
  function Escaped(value: Text): Text {
    if value == [] then []
    else
      (if value[0] == BACKSLASH then [BACKSLASH, BACKSLASH]
       else if value[0] == QUOTE then [BACKSLASH, QUOTE]
       else if value[0] == LINE_FEED then [BACKSLASH, LETTER_N]
       else [value[0]]) + Escaped(value[1..])
  }

  /** `="value"` */
  function PrintQuoted(p: Pair): Text {
    p.beforeSign + ([EQUALS] + (p.afterSign + ([QUOTE] + (Escaped(p.entry.value) + [QUOTE]))))
  }

  function PrintPair(p: Pair): Text {
    p.before + (p.entry.name + (PrintQuoted(p) + p.after))
  }

  /** Pairs, then the closing brace. */
  function PrintPairs(pairs: seq<Pair>, comma: bool, pad: Text): Text {
    if pairs == [] then pad + [CLOSE_BRACE]
    else
      PrintPair(pairs[0])
        + (if |pairs| == 1 && !comma then [CLOSE_BRACE] else [COMMA] + PrintPairs(pairs[1..], comma, pad))
  }

  function PrintSet(set': Braces): Text {
    PrintPairs(set'.pairs, set'.comma, set'.pad)
  }

  function LabelsIn(pairs: seq<Pair>): (labels: seq<Label>)
    ensures |labels| == |pairs| && forall i | 0 <= i < |pairs| :: labels[i] == pairs[i].entry
  {
    seq(|pairs|, i requires 0 <= i < |pairs| => pairs[i].entry)
  }

  predicate PairOk(p: Pair) {
    && Blank(p.before) && Blank(p.beforeSign) && Blank(p.afterSign) && Blank(p.after)
    && LabelName(p.entry.name) && p.entry.name != NAME_LABEL
  }

  predicate HasPair(pairs: seq<Pair>, name: Text) {
    exists i | 0 <= i < |pairs| :: pairs[i].entry.name == name
  }

  /** Distinct names, none of which `before` has, and at most 128 labels with those. */
  ghost predicate PairsOk(before: seq<Label>, pairs: seq<Pair>) {
    && (pairs != [] ==> |before| + |pairs| <= 128)
    && (forall i | 0 <= i < |pairs| :: PairOk(pairs[i]) && !HasName(before, pairs[i].entry.name))
    && forall i, j | 0 <= i < j < |pairs| :: pairs[i].entry.name != pairs[j].entry.name
  }

  // ----- lines

  /** A sample line: metric name, perhaps a label set, the value, perhaps a timestamp, and perhaps
      a remark such as an exemplar, with the blanks between them. */
  datatype Spelling = Spelling(
    lead: Text,
    name: Text,
    gap: Text,
    braces: Option<Braces>,
    afterBraces: Text,
    token: Text,
    stamp: Option<Stamp>,
    pad: Text,
    remark: Option<Text>)

  datatype Stamp = Stamp(gap: Text, token: Text)

  /** The part of the line a series is identified by. */
  function Identity(sp: Spelling): Text {
    if sp.braces.Some? then sp.name + (sp.gap + ([OPEN_BRACE] + PrintSet(sp.braces.value))) else sp.name
  }

  /** The blank before the value. */
  function BeforeValue(sp: Spelling): Text {
    if sp.braces.Some? then sp.afterBraces else sp.gap
  }

  function PrintRemark(pad: Text, remark: Option<Text>): Text {
    pad + (if remark.Some? then [HASH] + remark.value else [])
  }

  function PrintStamp(stamp: Option<Stamp>): Text {
    if stamp.Some? then stamp.value.gap + stamp.value.token else []
  }

  /** The value and what follows it. */
  function PrintTail(sp: Spelling): Text {
    sp.token + (PrintStamp(sp.stamp) + PrintRemark(sp.pad, sp.remark))
  }

  function PrintLine(sp: Spelling): Text {
    sp.lead + (Identity(sp) + (BeforeValue(sp) + PrintTail(sp)))
  }

  /** A run of bytes other than spaces and tabs. */
  predicate Word(token: Text) {
    token != [] && forall i | 0 <= i < |token| :: token[i] != ' ' as int && token[i] != '\t' as int
  }

  /** A value, and a timestamp that does not look like a remark; a blank stands before a remark. */
  predicate TailOk(sp: Spelling, tokens: Tokens) {
    && Word(sp.token) && tokens.value(sp.token).Some?
    && (sp.stamp.Some? ==>
        && Blank(sp.stamp.value.gap) && sp.stamp.value.gap != []
        && Word(sp.stamp.value.token) && sp.stamp.value.token[0] != '#' as int
        && tokens.timestamp(sp.stamp.value.token).Some?)
    && Blank(sp.pad) && (sp.remark.Some? ==> sp.pad != [])
  }

  ghost predicate HeadOk(sp: Spelling) {
    && Blank(sp.lead) && MetricName(sp.name) && Blank(sp.gap)
    && match sp.braces
       case Some(set') => PairsOk([Label(NAME_LABEL, sp.name)], set'.pairs) && Blank(set'.pad) && Blank(sp.afterBraces)
       // Without a label set the value must not be taken for one, nor for more of the name.
       case None =>
         && sp.token != [] && sp.token[0] != '{' as int
         && (sp.gap == [] ==> !NameByte(sp.token[0]) && sp.token[0] != ':' as int)
  }

  ghost predicate SpellingOk(sp: Spelling, tokens: Tokens) {
    HeadOk(sp) && TailOk(sp, tokens)
  }

  /** The series a line spells: its labels after the metric name, its value, and its own timestamp
      where it has one that is honored. */
  function Meaning(sp: Spelling, tokens: Tokens, defaultMs: i64, honor: bool): TimeSeries
    requires TailOk(sp, tokens)
  {
    TimeSeries(
      [Label(NAME_LABEL, sp.name)] + (if sp.braces.Some? then LabelsIn(sp.braces.value.pairs) else []),
      Sample(
        tokens.value(sp.token).value,
        if honor && sp.stamp.Some? then tokens.timestamp(sp.stamp.value.token).value else defaultMs),
      tokens.hash(Identity(sp)),
      None)
  }

  // ----- bodies

  /** A line is a sample line, or blank up to a remark. */
  datatype Content = Series(spelling: Spelling) | Remark(lead: Text, remark: Option<Text>)

  /** A line of a body with what ends it: a line feed, perhaps after a carriage return. */
  datatype BodyLine = BodyLine(content: Content, end: Text)

  function PrintContent(content: Content): Text {
    match content
    case Series(spelling) => PrintLine(spelling)
    case Remark(lead, remark) => PrintRemark(lead, remark)
  }

  function PrintBody(lines: seq<BodyLine>): Text {
    if lines == [] then [] else PrintContent(lines[0].content) + (lines[0].end + PrintBody(lines[1..]))
  }

  predicate EndsWithoutReturn(text: Text) {
    text == [] || text[|text| - 1] != CARRIAGE_RETURN
  }

  /** The content is one line, and its last byte is no carriage return that belongs to the end. */
  ghost predicate LineOk(line: BodyLine, tokens: Tokens) {
    && (match line.content
        case Series(spelling) => SpellingOk(spelling, tokens)
        case Remark(lead, _) => Blank(lead))
    && LINE_FEED !in PrintContent(line.content)
    && (line.end == [] || line.end == [LINE_FEED] ==> EndsWithoutReturn(PrintContent(line.content)))
  }

  /** The ends of lines; only the last line may do without its line feed. */
  predicate EndOk(end: Text, last: bool) {
    || end == [LINE_FEED] || end == [CARRIAGE_RETURN, LINE_FEED]
    || (last && (end == [] || end == [CARRIAGE_RETURN]))
  }

  ghost predicate BodyOk(lines: seq<BodyLine>, tokens: Tokens) {
    forall i | 0 <= i < |lines| :: LineOk(lines[i], tokens) && EndOk(lines[i].end, i == |lines| - 1)
  }

  ghost function LineMeaning(line: BodyLine, tokens: Tokens, defaultMs: i64, honor: bool): seq<TimeSeries>
    requires LineOk(line, tokens)
  {
    match line.content
    case Series(spelling) => [Meaning(spelling, tokens, defaultMs, honor)]
    case Remark(_, _) => []
  }

  /** What the sample lines mean, in order. */
  ghost function Meanings(lines: seq<BodyLine>, tokens: Tokens, defaultMs: i64, honor: bool): seq<TimeSeries>
    requires BodyOk(lines, tokens)
  {
    if lines == [] then []
    else
      assert LineOk(lines[0], tokens);
      LineMeaning(lines[0], tokens, defaultMs, honor) + Meanings(lines[1..], tokens, defaultMs, honor)
  }
}
