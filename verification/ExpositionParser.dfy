/**
 The single-pass cursor parser (`src/parser.rs:79-573`), proved against the text
 format's specification. A line is handed on as its slice; the source passes the
 whole body with the slice's bounds.
 */
module ExpositionParser {
  import opened Basics
  import opened Ascii
  import opened Model
  import opened LabelLists
  import opened ExpositionText

  /** Label count up to which duplicates are found by scanning the labels. */
  const DUPLICATE_SCAN_LINEAR_LIMIT := 32

  lemma Advance(line: Text, i: nat)
    requires i < |line|
    ensures line[i..] != [] && line[i..][0] == line[i] && line[i..][1..] == line[i + 1..]
  {
  }

  // ----- scanning loops

  method SkipSpacesFrom(line: Text, start: nat) returns (i: nat)
    requires start <= |line|
    ensures start <= i <= |line| && line[i..] == SkipSpaces(line[start..])
  {
    i := start;
    while i < |line| && IsSpace(line[i])
      invariant start <= i <= |line| && SkipSpaces(line[i..]) == SkipSpaces(line[start..])
    {
      Advance(line, i);
      i := i + 1;
    }
  }

  method NameEnd(line: Text, start: nat, allowColon: bool) returns (i: nat)
    requires start <= |line|
    ensures start <= i <= |line| && i == start + NameRun(line[start..], allowColon)
  {
    i := start;
    while i < |line| && IsNameContinue(line[i], allowColon)
      invariant start <= i <= |line|
      invariant i + NameRun(line[i..], allowColon) == start + NameRun(line[start..], allowColon)
    {
      Advance(line, i);
      i := i + 1;
    }
  }

  method TokenEnd(line: Text, start: nat) returns (i: nat)
    requires start <= |line|
    ensures start <= i <= |line| && i == start + TokenRun(line[start..])
  {
    i := start;
    while i < |line| && !IsSpace(line[i])
      invariant start <= i <= |line| && i + TokenRun(line[i..]) == start + TokenRun(line[start..])
    {
      Advance(line, i);
      i := i + 1;
    }
  }

  /** `memchr2`: the first quote or backslash from `start` on. */
  method FindQuoteOrBackslash(line: Text, start: nat) returns (found: Option<nat>)
    requires start <= |line|
    ensures found.None? ==> forall k | start <= k < |line| :: line[k] != QUOTE && line[k] != BACKSLASH
    ensures found.Some? ==>
      && start <= found.value < |line|
      && (line[found.value] == QUOTE || line[found.value] == BACKSLASH)
      && forall k | start <= k < found.value :: line[k] != QUOTE && line[k] != BACKSLASH
  {
    var i := start;
    while i < |line|
      invariant start <= i <= |line|
      invariant forall k | start <= k < i :: line[k] != QUOTE && line[k] != BACKSLASH
    {
      if line[i] == QUOTE || line[i] == BACKSLASH {
        return Some(i);
      }
      i := i + 1;
    }
    found := None;
  }

  // ----- label values

  /** The closing quote seen from further back. */
  function Shifted(r: Result<nat, Failure>, distance: nat): Result<nat, Failure> {
    match r
    case Ok(n) => Ok(n + distance)
    case Err(failure) => Err(failure)
  }

  /** Plain bytes move the closing quote along. */
  lemma {:induction false} CloseQuotePlain(line: Text, i: nat, j: nat)
    requires i <= j <= |line|
    requires forall k | i <= k < j :: line[k] != QUOTE && line[k] != BACKSLASH
    ensures CloseQuote(line[i..]) == Shifted(CloseQuote(line[j..]), j - i)
    decreases j - i
  {
    if i < j {
      Advance(line, i);
      CloseQuotePlain(line, i + 1, j);
    }
  }

  lemma CloseQuoteAt(line: Text, i: nat)
    requires i < |line| && (line[i] == QUOTE || line[i] == BACKSLASH)
    ensures CloseQuote(line[i..]) ==
      if line[i] == QUOTE then Ok(0)
      else if i + 1 == |line| then Err(TrailingBackslash)
      else Shifted(CloseQuote(line[i + 2..]), 2)
  {
    if i + 1 < |line| {
      assert line[i..][2..] == line[i + 2..];
    }
  }

  lemma ShiftedTwice(r: Result<nat, Failure>, a: nat, b: nat)
    ensures Shifted(Shifted(r, a), b) == Shifted(r, a + b)
    ensures Shifted(r, 0) == r
  {
  }

  lemma CloseQuoteNowhere(line: Text)
    ensures CloseQuote(line[|line|..]) == Err(UnterminatedValue)
  {
  }

  /** Finds the closing quote of the value that starts at `start`, noting whether an escape occurs. */
  method ScanValue(line: Text, start: nat) returns (r: Result<nat, Failure>, hasEscape: bool)
    requires start <= |line|
    ensures match r
            case Ok(close) => start <= close < |line| && CloseQuote(line[start..]) == Ok(close - start)
            case Err(failure) => CloseQuote(line[start..]) == Err(failure)
    ensures r.Ok? && !hasEscape ==> BACKSLASH !in line[start..r.value]
  {
    hide CloseQuote;
    var i := start;
    hasEscape := false;
    ShiftedTwice(CloseQuote(line[start..]), 0, 0);
    while true
      invariant start <= i <= |line|
      invariant CloseQuote(line[start..]) == Shifted(CloseQuote(line[i..]), i - start)
      invariant !hasEscape ==> forall k | start <= k < i :: line[k] != BACKSLASH
      decreases |line| - i
    {
      var found := FindQuoteOrBackslash(line, i);
      if found.None? {
        CloseQuotePlain(line, i, |line|);
        CloseQuoteNowhere(line);
        return Err(UnterminatedValue), hasEscape;
      }
      CloseQuotePlain(line, i, found.value);
      ShiftedTwice(CloseQuote(line[found.value..]), found.value - i, i - start);
      i := found.value;
      CloseQuoteAt(line, i);
      if line[i] == QUOTE {
        return Ok(i), hasEscape;
      }
      hasEscape := true;
      if i + 1 >= |line| {
        return Err(TrailingBackslash), hasEscape;
      }
      ShiftedTwice(CloseQuote(line[i + 2..]), 2, i - start);
      i := i + 2;
    }
  }

  lemma {:induction false} PlainIsUnescaped(raw: Text)
    requires BACKSLASH !in raw
    ensures Unescape(raw) == Some(raw)
  {
    if raw != [] {
      PlainIsUnescaped(raw[1..]);
      assert raw == [raw[0]] + raw[1..];
    }
  }

  /** What decoding `raw` gives once `decoded` came out of its first part. */
  function Prepended(decoded: Text, rest: Option<Text>): Option<Text> {
    match rest
    case Some(text) => Some(decoded + text)
    case None => None
  }

  lemma UnescapeStep(raw: Text, j: nat)
    requires j < |raw| && (raw[j] == BACKSLASH ==> j + 1 < |raw|)
    ensures Unescape(raw[j..]) ==
      if raw[j] != BACKSLASH then Prepended([raw[j]], Unescape(raw[j + 1..]))
      else if raw[j + 1] == BACKSLASH || raw[j + 1] == QUOTE || raw[j + 1] == LETTER_N then
        Prepended([if raw[j + 1] == LETTER_N then LINE_FEED else raw[j + 1]], Unescape(raw[j + 2..]))
      else None
  {
    Advance(raw, j);
    if raw[j] == BACKSLASH {
      assert raw[j..][2..] == raw[j + 2..];
    }
  }

  lemma PrependedTwice(a: Text, b: Text, r: Option<Text>)
    ensures Prepended(a, Prepended(b, r)) == Prepended(a + b, r)
  {
    assert r.Some? ==> a + (b + r.value) == (a + b) + r.value;
  }

  lemma PrependedNothing(r: Option<Text>)
    ensures Prepended([], r) == r
  {
    assert r.Some? ==> [] + r.value == r.value;
  }

  /** One escaped or plain byte at `i` of a value that closes at `close`. */
  lemma CloseQuoteStep(line: Text, i: nat, close: nat)
    requires i < close < |line| && CloseQuote(line[i..]) == Ok(close - i)
    ensures line[i] != QUOTE
    ensures line[i] == BACKSLASH ==> i + 2 <= close && CloseQuote(line[i + 2..]) == Ok(close - i - 2)
    ensures line[i] != BACKSLASH ==> CloseQuote(line[i + 1..]) == Ok(close - i - 1)
  {
    Advance(line, i);
    if line[i] == BACKSLASH {
      assert line[i..][2..] == line[i + 2..];
    }
  }

  /** The slow path: decode escapes, copying plain runs whole. */
  method DecodeEscapes(line: Text, start: nat, close: nat) returns (r: Result<Text, Failure>)
    requires start <= close < |line| && CloseQuote(line[start..]) == Ok(close - start)
    ensures match Unescape(line[start..close])
            case Some(text) => r == Ok(text)
            case None => r == Err(InvalidEscape)
  {
    hide CloseQuote, Unescape, Prepended;
    var raw := line[start..close];
    var decoded: Text := [];
    var j := 0;
    PrependedNothing(Unescape(raw));
    assert raw[0..] == raw;
    while j < |raw|
      invariant 0 <= j <= |raw| && CloseQuote(line[start + j..]) == Ok(|raw| - j)
      invariant Unescape(raw) == Prepended(decoded, Unescape(raw[j..]))
    {
      CloseQuoteStep(line, start + j, close);
      UnescapeStep(raw, j);
      if raw[j] == BACKSLASH {
        var escaped := raw[j + 1];
        if escaped != BACKSLASH && escaped != QUOTE && escaped != LETTER_N {
          PrependedFailure(decoded);
          return Err(InvalidEscape);
        }
        var one := [if escaped == LETTER_N then LINE_FEED else escaped];
        PrependedTwice(decoded, one, Unescape(raw[j + 2..]));
        decoded := decoded + one;
        j := j + 2;
      } else {
        var run;
        run, j := CopyRun(line, start, close, j, decoded);
        decoded := decoded + run;
      }
    }
    UnescapeEnd(raw, decoded);
    r := Ok(decoded);
  }

  lemma PrependedFailure(decoded: Text)
    ensures Prepended(decoded, None) == None
  {
  }

  lemma UnescapeEnd(raw: Text, decoded: Text)
    ensures Prepended(decoded, Unescape(raw[|raw|..])) == Some(decoded)
  {
    assert decoded + [] == decoded;
  }

  /** A maximal run of bytes that are not backslashes. */
  method CopyRun(line: Text, start: nat, close: nat, from: nat, ghost decoded: Text) returns (run: Text, j: nat)
    requires start <= close < |line| && from < close - start && line[start + from] != BACKSLASH
    requires CloseQuote(line[start + from..]) == Ok(close - start - from)
    requires Unescape(line[start..close]) == Prepended(decoded, Unescape(line[start..close][from..]))
    ensures from < j <= close - start && CloseQuote(line[start + j..]) == Ok(close - start - j)
    ensures Unescape(line[start..close]) == Prepended(decoded + run, Unescape(line[start..close][j..]))
  {
    hide CloseQuote, Unescape, Prepended;
    var raw := line[start..close];
    j := from;
    run := [];
    assert decoded + run == decoded;
    while j < |raw| && raw[j] != BACKSLASH
      invariant from <= j <= |raw| && (j == from ==> run == [])
      invariant CloseQuote(line[start + j..]) == Ok(|raw| - j)
      invariant Unescape(raw) == Prepended(decoded + run, Unescape(raw[j..]))
    {
      CloseQuoteStep(line, start + j, close);
      UnescapeStep(raw, j);
      PrependedTwice(decoded + run, [raw[j]], Unescape(raw[j + 1..]));
      assert (decoded + run) + [raw[j]] == decoded + (run + [raw[j]]);
      run := run + [raw[j]];
      j := j + 1;
    }
  }

  /** A double-quoted value: values without a backslash are copied, others decoded. */
  method ParseLabelValue(line: Text, open: nat) returns (r: Result<(Text, nat), Failure>)
    requires open < |line| && line[open] == QUOTE
    ensures match r
            case Ok((value, next)) =>
              open < next <= |line| && LabelValue(line[open + 1..]) == Ok((value, line[next..]))
            case Err(failure) => LabelValue(line[open + 1..]) == Err(failure)
  {
    hide CloseQuote, Unescape;
    var start := open + 1;
    var scan, hasEscape := ScanValue(line, start);
    if scan.Err? {
      return Err(scan.error);
    }
    var close := scan.value;
    assert line[start..][..close - start] == line[start..close];
    assert line[start..][close - start + 1..] == line[close + 1..];
    if !hasEscape {
      PlainIsUnescaped(line[start..close]);
      return Ok((line[start..close], close + 1));
    }
    var decoded := DecodeEscapes(line, start, close);
    if decoded.Err? {
      return Err(decoded.error);
    }
    r := Ok((decoded.value, close + 1));
  }

  // ----- duplicate names

  /** Whether `name` repeats a label or passes the cap; `seen` is the index once there is one. */
  method CheckLabelName(name: Text, labels: seq<Label>, seen: Option<set<Text>>) returns (fault: Option<Failure>)
    requires seen.Some? ==> seen.value == NameSet(labels)
    ensures fault ==
      if HasName(labels, name) then Some(DuplicateLabelName)
      else if |labels| >= MAX_LABELS_PER_SERIES then Some(TooManyLabels)
      else None
  {
    var duplicate := match seen
      case Some(names) => name in names
      case None => HasName(labels, name);
    if duplicate {
      return Some(DuplicateLabelName);
    }
    if |labels| >= MAX_LABELS_PER_SERIES {
      return Some(TooManyLabels);
    }
    fault := None;
  }

  /** Keeps the duplicate index in step with `labels`, whose last name was just appended. */
  method RecordLabelName(name: Text, labels: seq<Label>, seen: Option<set<Text>>) returns (next: Option<set<Text>>)
    requires labels != [] && labels[|labels| - 1].name == name
    requires seen.Some? ==> seen.value == NameSet(labels[..|labels| - 1])
    ensures next.Some? ==> next.value == NameSet(labels)
    ensures next.Some? <==> seen.Some? || |labels| > DUPLICATE_SCAN_LINEAR_LIMIT
  {
    match seen
    case Some(names) =>
      next := Some(names + {name});
      assert NameSet(labels) == names + {name} by {
        var init := labels[..|labels| - 1];
        assert forall i | 0 <= i < |init| :: init[i].name == labels[i].name;
        assert labels[|labels| - 1].name in NameSet(labels);
      }
    case None =>
      next := if |labels| > DUPLICATE_SCAN_LINEAR_LIMIT then Some(NameSet(labels)) else None;
  }

  // ----- label sets

  /** One `name = "value"` pair starting at `start`. */
  method ParseLabel(line: Text, start: nat, labels: seq<Label>, seen: Option<set<Text>>)
    returns (r: Result<(Label, nat), Failure>)
    requires start < |line| && (seen.Some? ==> seen.value == NameSet(labels))
    ensures match r
            case Ok((pair, next)) =>
              start < next <= |line| && OneLabel(line[start..], labels) == Ok((pair, line[next..]))
            case Err(failure) => OneLabel(line[start..], labels) == Err(failure)
  {
    hide LabelValue, SkipSpaces, NameRun, HasName, IsNameStart, IsNameContinue;
    Advance(line, start);
    if !IsNameStart(line[start], false) {
      return Err(InvalidLabelStart);
    }
    var i := NameEnd(line, start + 1, false);
    var name := line[start..i];
    assert line[start..][..i - start] == name && line[start..][i - start..] == line[i..];
    if name == METRIC_NAME_LABEL {
      return Err(ReservedLabelName);
    }
    var fault := CheckLabelName(name, labels, seen);
    if fault.Some? {
      return Err(fault.value);
    }
    var sign := SkipSpacesFrom(line, i);
    if sign >= |line| || line[sign] != EQUALS {
      return Err(ExpectedEquals);
    }
    Advance(line, sign);
    var quote := SkipSpacesFrom(line, sign + 1);
    if quote >= |line| || line[quote] != QUOTE {
      return Err(ExpectedQuote);
    }
    Advance(line, quote);
    var parsed := ParseLabelValue(line, quote);
    if parsed.Err? {
      return Err(parsed.error);
    }
    r := Ok((Label(name, parsed.value.0), parsed.value.1));
  }

  /** The label set that opens at `open`; returns the labels and the index past the closing brace. */
  method ParseLabels(line: Text, open: nat, before: seq<Label>) returns (r: Result<(seq<Label>, nat), Failure>)
    requires open < |line| && line[open] == OPEN_BRACE
    ensures match r
            case Ok((labels, next)) =>
              open < next <= |line| && LabelSet(line[open + 1..], before) == Ok((labels, line[next..]))
            case Err(failure) => LabelSet(line[open + 1..], before) == Err(failure)
  {
    hide OneLabel, SkipSpaces;
    var i, labels := open + 1, before;
    var seen: Option<set<Text>> := None;
    while true
      invariant open < i <= |line| && LabelSet(line[i..], labels) == LabelSet(line[open + 1..], before)
      invariant seen.Some? ==> seen.value == NameSet(labels)
      decreases |line| - i
    {
      var start := SkipSpacesFrom(line, i);
      if start >= |line| {
        return Err(UnterminatedLabels);
      }
      Advance(line, start);
      if line[start] == CLOSE_BRACE {
        return Ok((labels, start + 1));
      }
      var parsed := ParseLabel(line, start, labels, seen);
      if parsed.Err? {
        return Err(parsed.error);
      }
      var (pair, rest) := parsed.value;
      var next := SkipSpacesFrom(line, rest);
      if next >= |line| {
        return Err(UnterminatedLabels);
      }
      Advance(line, next);
      assert (labels + [pair])[..|labels|] == labels;
      seen := RecordLabelName(pair.name, labels + [pair], seen);
      labels := labels + [pair];
      if line[next] == CLOSE_BRACE {
        return Ok((labels, next + 1));
      }
      if line[next] != COMMA {
        return Err(ExpectedCommaOrBrace);
      }
      i := next + 1;
    }
  }

  // ----- lines and bodies

  lemma Between(line: Text, start: nat, end: nat)
    requires start <= end <= |line|
    ensures line[start..][..|line[start..]| - |line[end..]|] == line[start..end]
    ensures line[start..][end - start..] == line[end..]
  {
  }

  /** Value, optional timestamp and exemplar, from `start` on. */
  method ParseSample(line: Text, start: nat, tokens: Tokens, defaultMs: i64, honor: bool)
    returns (r: Result<Sample, Failure>)
    requires start <= |line|
    ensures r == SampleTail(line[start..], tokens, defaultMs, honor)
  {
    hide SkipSpaces, TokenRun;
    if start >= |line| {
      return Err(MissingValue);
    }
    var i := TokenEnd(line, start);
    var value := tokens.value(line[start..i]);
    Between(line, start, i);
    assert |line[start..]| - |line[i..]| == i - start;
    if value.None? {
      return Err(InvalidValue);
    }
    i := SkipSpacesFrom(line, i);
    var timestamp := defaultMs;
    if i < |line| && line[i] != HASH {
      ghost var after := i;
      var end := TokenEnd(line, i);
      var parsed := tokens.timestamp(line[i..end]);
      Between(line, after, end);
      assert |line[after..]| - |line[end..]| == end - after;
      if parsed.None? {
        return Err(InvalidTimestamp);
      }
      if honor {
        timestamp := parsed.value;
      }
      i := SkipSpacesFrom(line, end);
      if i < |line| && line[i] != HASH {
        return Err(TrailingContent);
      }
    }
    r := Ok(Sample(value.value, timestamp));
  }

  /** Metric name and optional label set from `start` on: the end of the identity bytes, the
      labels, and where the value starts. */
  method ParseHead(line: Text, start: nat) returns (r: Result<(nat, seq<Label>, nat), Failure>)
    requires start < |line|
    ensures match r
            case Ok((identityEnd, labels, next)) =>
              && start <= identityEnd <= |line| && next <= |line|
              && SeriesHead(line[start..]) == Ok(Head(line[start..identityEnd], labels, line[next..]))
            case Err(failure) => SeriesHead(line[start..]) == Err(failure)
  {
    hide LabelSet, SkipSpaces, NameRun, IsNameStart, IsNameContinue;
    Advance(line, start);
    if !IsNameStart(line[start], true) {
      return Err(InvalidMetricStart);
    }
    var i := NameEnd(line, start + 1, true);
    var identityEnd := i;
    Between(line, start, i);
    assert |line[start..]| - |line[i..]| == i - start;
    var labels := [Label(METRIC_NAME_LABEL, line[start..i])];
    i := SkipSpacesFrom(line, i);
    if i < |line| && line[i] == OPEN_BRACE {
      Advance(line, i);
      var parsed := ParseLabels(line, i, labels);
      if parsed.Err? {
        return Err(parsed.error);
      }
      labels, identityEnd := parsed.value.0, parsed.value.1;
      i := SkipSpacesFrom(line, identityEnd);
      Between(line, start, identityEnd);
    }
    r := Ok((identityEnd, labels, i));
  }

  method ParseLine(line: Text, tokens: Tokens, defaultMs: i64, honor: bool)
    returns (r: Result<Option<TimeSeries>, Failure>)
    ensures r == Line(line, tokens, defaultMs, honor)
  {
    hide SeriesHead, SampleTail, SkipSpaces;
    assert line[0..] == line;
    var start := SkipSpacesFrom(line, 0);
    if start >= |line| {
      return Ok(None);
    }
    if line[start] == HASH {
      return Ok(None);
    }
    var head := ParseHead(line, start);
    if head.Err? {
      return Err(head.error);
    }
    var (identityEnd, labels, next) := head.value;
    var sample := ParseSample(line, next, tokens, defaultMs, honor);
    if sample.Err? {
      return Err(sample.error);
    }
    r := Ok(Some(TimeSeries(labels, sample.value, tokens.hash(line[start..identityEnd]), None)));
  }

  method FindLineEnd(body: Text, start: nat) returns (end: nat)
    requires start <= |body|
    ensures start <= end <= |body| && end == start + LineEnd(body[start..])
  {
    end := start;
    while end < |body| && body[end] != LINE_FEED
      invariant start <= end <= |body| && end + LineEnd(body[end..]) == start + LineEnd(body[start..])
    {
      Advance(body, end);
      end := end + 1;
    }
  }

  /** What the whole parse is, once `out` came from the lines before. */
  function After(out: seq<TimeSeries>, rest: Result<seq<TimeSeries>, ParseError>): Result<seq<TimeSeries>, ParseError> {
    if rest.Err? then rest else Ok(out + rest.value)
  }

  lemma AfterSeries(out: seq<TimeSeries>, found: Option<TimeSeries>, rest: Result<seq<TimeSeries>, ParseError>)
    ensures After(out, WithSeries(found, rest)) == After(out + (if found.Some? then [found.value] else []), rest)
  {
    if rest.Ok? {
      var first := if found.Some? then [found.value] else [];
      assert out + (first + rest.value) == (out + first) + rest.value;
    }
  }

  lemma BodyStep(body: Text, pos: nat, lineNo: nat, tokens: Tokens, defaultMs: i64, honor: bool)
    requires pos < |body|
    ensures
      var end := pos + LineEnd(body[pos..]);
      Body(body[pos..], lineNo, tokens, defaultMs, honor) ==
        match Line(WithoutReturn(body[pos..end]), tokens, defaultMs, honor)
        case Err(failure) => Err(ParseError(lineNo, failure))
        case Ok(found) =>
          WithSeries(found,
            Body(if end < |body| then body[end + 1..] else body[end..], lineNo + 1, tokens, defaultMs, honor))
  {
    hide Line, LineEnd, AfterLine, WithSeries, WithoutReturn;
    LineAt(body, pos);
  }

  lemma LineAt(body: Text, pos: nat)
    requires pos < |body|
    ensures
      var end := pos + LineEnd(body[pos..]);
      && body[pos..][..LineEnd(body[pos..])] == body[pos..end]
      && AfterLine(body[pos..]) == (if end < |body| then body[end + 1..] else body[end..])
  {
    hide LineEnd;
    var n := LineEnd(body[pos..]);
    if pos + n < |body| {
      assert body[pos..][n + 1..] == body[pos + n + 1..];
    }
  }

  lemma BodyEnd(body: Text, lineNo: nat, tokens: Tokens, defaultMs: i64, honor: bool)
    ensures Body(body[|body|..], lineNo, tokens, defaultMs, honor) == Ok([])
    ensures body[0..] == body
  {
  }

  lemma AfterNothing(r: Result<seq<TimeSeries>, ParseError>, out: seq<TimeSeries>)
    ensures After([], r) == r && After(out, Ok([])) == Ok(out)
  {
    assert r.Ok? ==> [] + r.value == r.value;
    assert out + [] == out;
  }

  /** Parse a scrape body: one series per sample line, the first malformed line fails the whole. */
  method Parse(body: Text, tokens: Tokens, defaultMs: i64, honor: bool)
    returns (r: Result<seq<TimeSeries>, ParseError>)
    ensures r == Body(body, 1, tokens, defaultMs, honor)
  {
    hide Body, Line, LineEnd, WithSeries, After, WithoutReturn;
    var out: seq<TimeSeries> := [];
    var lineNo, pos := 0, 0;
    BodyEnd(body, 1, tokens, defaultMs, honor);
    AfterNothing(Body(body, 1, tokens, defaultMs, honor), []);
    while pos < |body|
      invariant 0 <= pos <= |body|
      invariant After(out, Body(body[pos..], lineNo + 1, tokens, defaultMs, honor))
        == Body(body, 1, tokens, defaultMs, honor)
    {
      lineNo := lineNo + 1;
      BodyStep(body, pos, lineNo, tokens, defaultMs, honor);
      var lineEnd := FindLineEnd(body, pos);
      var line := WithoutReturn(body[pos..lineEnd]);
      pos := if lineEnd < |body| then lineEnd + 1 else lineEnd;
      var parsed := ParseLine(line, tokens, defaultMs, honor);
      if parsed.Err? {
        AfterError(out, ParseError(lineNo, parsed.error));
        return Err(ParseError(lineNo, parsed.error));
      }
      AfterSeries(out, parsed.value, Body(body[pos..], lineNo + 1, tokens, defaultMs, honor));
      out := out + (if parsed.value.Some? then [parsed.value.value] else []);
    }
    BodyEnd(body, lineNo + 1, tokens, defaultMs, honor);
    AfterNothing(Ok([]), out);
    r := Ok(out);
  }

  lemma AfterError(out: seq<TimeSeries>, error: ParseError)
    ensures After(out, Err(error)) == Err(error)
  {
  }
}
