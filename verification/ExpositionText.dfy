/**
 The text exposition format as functions on the unread rest of the input
 (`src/parser.rs`; Prometheus exposition formats, section "Text format details").
 */
module ExpositionText {
  import opened Basics
  import opened Ascii
  import opened Model

  /** `__name__` */
  const METRIC_NAME_LABEL: Text := [95, 95, 110, 97, 109, 101, 95, 95]

  /** Labels of one series, `__name__` included. */
  const MAX_LABELS_PER_SERIES := 128

  datatype Failure =
    | InvalidMetricStart | MissingValue | InvalidValue | InvalidTimestamp | TrailingContent
    | UnterminatedLabels | InvalidLabelStart | ReservedLabelName | DuplicateLabelName | TooManyLabels
    | ExpectedEquals | ExpectedQuote | UnterminatedValue | TrailingBackslash | InvalidEscape
    | ExpectedCommaOrBrace

  /** How numeric tokens read and identities hash: `parse_value`, `parse_timestamp` and the
      identity hasher, which stay abstract here. */
  datatype Tokens = Tokens(value: Text -> Option<F64>, timestamp: Text -> Option<i64>, hash: Text -> u64)

  // ----- character classes

  predicate IsNameStart(b: byte, allowColon: bool) {
    IsLetter(b) || b == UNDERSCORE || (allowColon && b == COLON)
  }

  predicate IsNameContinue(b: byte, allowColon: bool) {
    IsNameStart(b, allowColon) || IsDigit(b)
  }

  /** `[a-zA-Z_:][a-zA-Z0-9_:]*`, colons only in metric names. */
  predicate IsValidName(name: Text, allowColon: bool) {
    && name != [] && IsNameStart(name[0], allowColon)
    && forall i | 0 <= i < |name| :: IsNameContinue(name[i], allowColon)
  }

  // ----- scanning

  function SkipSpaces(s: Text): (rest: Text)
    ensures |rest| <= |s|
    ensures rest != [] ==> !IsSpace(rest[0])
  {
    if s != [] && IsSpace(s[0]) then SkipSpaces(s[1..]) else s
  }

  /** Length of the leading run of name bytes. */
  function NameRun(s: Text, allowColon: bool): (n: nat)
    ensures n <= |s|
    ensures forall i | 0 <= i < n :: IsNameContinue(s[i], allowColon)
    ensures n < |s| ==> !IsNameContinue(s[n], allowColon)
  {
    if s != [] && IsNameContinue(s[0], allowColon) then 1 + NameRun(s[1..], allowColon) else 0
  }

  /** Length of the leading token: everything up to a space. */
  function TokenRun(s: Text): (n: nat)
    ensures n <= |s|
    ensures forall i | 0 <= i < n :: !IsSpace(s[i])
    ensures n < |s| ==> IsSpace(s[n])
  {
    if s != [] && !IsSpace(s[0]) then 1 + TokenRun(s[1..]) else 0
  }

  // ----- label values

  /** Distance to the closing quote, escaped bytes skipped in pairs. */
  function CloseQuote(s: Text): (r: Result<nat, Failure>)
    ensures r.Ok? ==> r.value < |s| && s[r.value] == QUOTE
  {
    if s == [] then Err(UnterminatedValue)
    else if s[0] == QUOTE then Ok(0)
    else if s[0] == BACKSLASH then
      if |s| == 1 then Err(TrailingBackslash)
      else
        match CloseQuote(s[2..])
        case Ok(n) => Ok(n + 2)
        case Err(failure) => Err(failure)
    else
      match CloseQuote(s[1..])
      case Ok(n) => Ok(n + 1)
      case Err(failure) => Err(failure)
  }

  /** The three escapes `\\`, `\"` and `\n`; anything else after a backslash is invalid. */
  function Unescape(raw: Text): Option<Text> {
    if raw == [] then Some([])
    else if raw[0] != BACKSLASH then
      match Unescape(raw[1..])
      case Some(text) => Some([raw[0]] + text)
      case None => None
    else if |raw| == 1 then None
    else if raw[1] == BACKSLASH || raw[1] == QUOTE || raw[1] == LETTER_N then
      match Unescape(raw[2..])
      case Some(text) => Some([if raw[1] == LETTER_N then LINE_FEED else raw[1]] + text)
      case None => None
    else None
  }

  /** A label value after its opening quote, and what follows the closing one. */
  function LabelValue(s: Text): (r: Result<(Text, Text), Failure>)
    ensures r.Ok? ==> |r.value.1| < |s|
  {
    match CloseQuote(s)
    case Err(failure) => Err(failure)
    case Ok(n) =>
      match Unescape(s[..n])
      case None => Err(InvalidEscape)
      case Some(value) => Ok((value, s[n + 1..]))
  }

  // ----- label sets

  predicate HasName(labels: seq<Label>, name: Text) {
    exists i | 0 <= i < |labels| :: labels[i].name == name
  }

  /** `= "value"` after a label name, and what follows the closing quote. */
  function QuotedValue(s: Text): (r: Result<(Text, Text), Failure>)
    ensures r.Ok? ==> |r.value.1| < |s|
  {
    var sign := SkipSpaces(s);
    if sign == [] || sign[0] != EQUALS then Err(ExpectedEquals)
    else
      var quote := SkipSpaces(sign[1..]);
      if quote == [] || quote[0] != QUOTE then Err(ExpectedQuote) else LabelValue(quote[1..])
  }

  /** Why `name` cannot be added to a series that already has `labels`. */
  function NameFault(name: Text, labels: seq<Label>): Option<Failure> {
    if name == METRIC_NAME_LABEL then Some(ReservedLabelName)
    else if HasName(labels, name) then Some(DuplicateLabelName)
    else if |labels| >= MAX_LABELS_PER_SERIES then Some(TooManyLabels)
    else None
  }

  /** One `name = "value"` pair of a series that already has `labels`. */
  function OneLabel(s: Text, labels: seq<Label>): (r: Result<(Label, Text), Failure>)
    requires s != []
    ensures r.Ok? ==> |r.value.1| < |s|
  {
    if !IsNameStart(s[0], false) then Err(InvalidLabelStart)
    else
      var n := 1 + NameRun(s[1..], false);
      if NameFault(s[..n], labels).Some? then Err(NameFault(s[..n], labels).value)
      else
        match QuotedValue(s[n..])
        case Err(failure) => Err(failure)
        case Ok((value, rest)) => Ok((Label(s[..n], value), rest))
  }

  /** The label set after its opening brace, or after a comma: the labels found added to
      `labels`, and what follows the closing brace. */
  function LabelSet(s: Text, labels: seq<Label>): (r: Result<(seq<Label>, Text), Failure>)
    ensures r.Ok? ==> |r.value.1| < |s|
    decreases |s|
  {
    var start := SkipSpaces(s);
    if start == [] then Err(UnterminatedLabels)
    else if start[0] == CLOSE_BRACE then Ok((labels, start[1..]))
    else
      match OneLabel(start, labels)
      case Err(failure) => Err(failure)
      case Ok((pair, rest)) =>
        var next := SkipSpaces(rest);
        if next == [] then Err(UnterminatedLabels)
        else if next[0] == COMMA then LabelSet(next[1..], labels + [pair])
        else if next[0] == CLOSE_BRACE then Ok((labels + [pair], next[1..]))
        else Err(ExpectedCommaOrBrace)
  }

  // ----- lines

  /** Value, optional timestamp and optional exemplar after the series. */
  function SampleTail(s: Text, tokens: Tokens, defaultMs: i64, honor: bool): Result<Sample, Failure> {
    if s == [] then Err(MissingValue)
    else
      var n := TokenRun(s);
      match tokens.value(s[..n])
      case None => Err(InvalidValue)
      case Some(value) =>
        var after := SkipSpaces(s[n..]);
        if after == [] || after[0] == HASH then Ok(Sample(value, defaultMs))
        else
          var m := TokenRun(after);
          match tokens.timestamp(after[..m])
          case None => Err(InvalidTimestamp)
          case Some(timestamp) =>
            var end := SkipSpaces(after[m..]);
            if end != [] && end[0] != HASH then Err(TrailingContent)
            else Ok(Sample(value, if honor then timestamp else defaultMs))
  }

  /** A series' raw identity bytes, its labels, and what follows: metric name, and label set
      if there is one. */
  datatype Head = Head(identity: Text, labels: seq<Label>, rest: Text)

  function SeriesHead(s: Text): Result<Head, Failure>
    requires s != []
  {
    if !IsNameStart(s[0], true) then Err(InvalidMetricStart)
    else
      var n := 1 + NameRun(s[1..], true);
      var named := [Label(METRIC_NAME_LABEL, s[..n])];
      var after := SkipSpaces(s[n..]);
      if after != [] && after[0] == OPEN_BRACE then
        match LabelSet(after[1..], named)
        case Err(failure) => Err(failure)
        case Ok((labels, rest)) => Ok(Head(s[..|s| - |rest|], labels, SkipSpaces(rest)))
      else
        Ok(Head(s[..n], named, after))
  }

  /** One line without its line feed and trailing carriage return; blank and comment lines
      hold no series. */
  function Line(line: Text, tokens: Tokens, defaultMs: i64, honor: bool): Result<Option<TimeSeries>, Failure> {
    var s := SkipSpaces(line);
    if s == [] || s[0] == HASH then Ok(None)
    else
      match SeriesHead(s)
      case Err(failure) => Err(failure)
      case Ok(head) =>
        match SampleTail(head.rest, tokens, defaultMs, honor)
        case Err(failure) => Err(failure)
        case Ok(sample) => Ok(Some(TimeSeries(head.labels, sample, tokens.hash(head.identity), None)))
  }

  // ----- bodies

  /** Offset of the first line feed, or the length. */
  function LineEnd(s: Text): (n: nat)
    ensures n <= |s|
    ensures forall i | 0 <= i < n :: s[i] != LINE_FEED
    ensures n < |s| ==> s[n] == LINE_FEED
  {
    if s != [] && s[0] != LINE_FEED then 1 + LineEnd(s[1..]) else 0
  }

  function WithoutReturn(line: Text): Text {
    if line != [] && line[|line| - 1] == CARRIAGE_RETURN then line[..|line| - 1] else line
  }

  datatype ParseError = ParseError(line: nat, failure: Failure)

  /** What follows the first line of `body` and its line feed. */
  function AfterLine(body: Text): (rest: Text)
    ensures body != [] ==> |rest| < |body|
  {
    if LineEnd(body) < |body| then body[LineEnd(body) + 1..] else []
  }

  function WithSeries(found: Option<TimeSeries>, rest: Result<seq<TimeSeries>, ParseError>)
    : Result<seq<TimeSeries>, ParseError>
  {
    if rest.Err? then rest else Ok((if found.Some? then [found.value] else []) + rest.value)
  }

  /** All lines of `body`, numbered from `lineNo`; the first malformed one fails the whole. */
  function Body(
    body: Text, lineNo: nat, tokens: Tokens, defaultMs: i64, honor: bool): Result<seq<TimeSeries>, ParseError>
    decreases |body|
  {
    if body == [] then Ok([])
    else
      var n := LineEnd(body);
      match Line(WithoutReturn(body[..n]), tokens, defaultMs, honor)
      case Err(failure) => Err(ParseError(lineNo, failure))
      case Ok(found) =>
        WithSeries(found, Body(AfterLine(body), lineNo + 1, tokens, defaultMs, honor))
  }
}
