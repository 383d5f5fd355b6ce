/** Laws of the text format: the label set is a function of the identity bytes, and bodies
    split at line feeds. */
module ExpositionLaws {
  import opened Basics
  import opened Ascii
  import opened Model
  import opened ExpositionText

  // ----- what a parser step reads does not depend on what follows

  lemma {:induction false} SkipSpacesCut(x: Text, y: Text)
    requires |SkipSpaces(x + y)| > |y|
    ensures SkipSpaces(x + y) == SkipSpaces(x) + y && SkipSpaces(x) != []
  {
    if IsSpace((x + y)[0]) {
      assert (x + y)[1..] == x[1..] + y;
      SkipSpacesCut(x[1..], y);
    }
  }

  lemma {:induction false} NameRunCut(x: Text, y: Text, allowColon: bool)
    requires NameRun(x + y, allowColon) <= |x|
    ensures NameRun(x, allowColon) == NameRun(x + y, allowColon)
  {
    if x != [] {
      assert (x + y)[1..] == x[1..] + y;
      if IsNameContinue(x[0], allowColon) {
        NameRunCut(x[1..], y, allowColon);
      }
    }
  }

  lemma {:induction false} CloseQuoteCut(x: Text, y: Text)
    requires CloseQuote(x + y).Ok? && CloseQuote(x + y).value < |x|
    ensures CloseQuote(x) == CloseQuote(x + y)
  {
    if x[0] == BACKSLASH {
      assert |x| >= 2;
      assert (x + y)[2..] == x[2..] + y;
      CloseQuoteCut(x[2..], y);
    } else if x[0] != QUOTE {
      assert (x + y)[1..] == x[1..] + y;
      CloseQuoteCut(x[1..], y);
    }
  }

  lemma LabelValueCut(x: Text, y: Text)
    requires LabelValue(x + y).Ok? && |LabelValue(x + y).value.1| >= |y|
    ensures LabelValue(x).Ok?
    ensures LabelValue(x + y) == Ok((LabelValue(x).value.0, LabelValue(x).value.1 + y))
  {
    var n := CloseQuote(x + y).value;
    CloseQuoteCut(x, y);
    assert (x + y)[..n] == x[..n] && (x + y)[n + 1..] == x[n + 1..] + y;
  }

  lemma QuotedValueCut(x: Text, y: Text)
    requires QuotedValue(x + y).Ok? && |QuotedValue(x + y).value.1| >= |y|
    ensures QuotedValue(x).Ok?
    ensures QuotedValue(x + y) == Ok((QuotedValue(x).value.0, QuotedValue(x).value.1 + y))
  {
    hide LabelValue, SkipSpaces;
    SkipSpacesCut(x, y);
    var sign := SkipSpaces(x);
    assert SkipSpaces(x + y)[1..] == sign[1..] + y;
    SkipSpacesCut(sign[1..], y);
    var quote := SkipSpaces(sign[1..]);
    assert SkipSpaces(sign[1..] + y)[1..] == quote[1..] + y;
    LabelValueCut(quote[1..], y);
  }

  lemma OneLabelCut(x: Text, y: Text, labels: seq<Label>)
    requires x != [] && OneLabel(x + y, labels).Ok? && |OneLabel(x + y, labels).value.1| >= |y|
    ensures OneLabel(x, labels).Ok?
    ensures OneLabel(x + y, labels) == Ok((OneLabel(x, labels).value.0, OneLabel(x, labels).value.1 + y))
  {
    hide QuotedValue, NameRun, NameFault, IsNameStart, IsNameContinue;
    var s := x + y;
    var n := 1 + NameRun(s[1..], false);
    assert s[1..] == x[1..] + y;
    NameRunCut(x[1..], y, false);
    assert s[n..] == x[n..] + y && s[..n] == x[..n];
    QuotedValueCut(x[n..], y);
  }

  /** A label set read to its closing brace is read the same way when nothing follows. */
  lemma {:induction false} LabelSetCut(x: Text, y: Text, labels: seq<Label>, found: seq<Label>)
    requires LabelSet(x + y, labels) == Ok((found, y))
    ensures LabelSet(x, labels) == Ok((found, []))
    decreases |x|
  {
    hide OneLabel, SkipSpaces;
    var start := SkipSpaces(x + y);
    SkipSpacesCut(x, y);
    var start' := SkipSpaces(x);
    if start[0] != CLOSE_BRACE {
      var (pair, rest) := OneLabel(start, labels).value;
      OneLabelCut(start', y, labels);
      var rest' := OneLabel(start', labels).value.1;
      var next := SkipSpaces(rest);
      SkipSpacesCut(rest', y);
      var next' := SkipSpaces(rest');
      assert next[1..] == next'[1..] + y;
      if next[0] == COMMA {
        LabelSetCut(next'[1..], y, labels + [pair], found);
      }
    } else {
      assert start[1..] == start'[1..] + y;
    }
  }

  // ----- identity locality

  /** The labels an identity stands for, read from its bytes alone. */
  function LabelsOf(identity: Text): Option<seq<Label>> {
    if identity == [] || !IsNameStart(identity[0], true) then None
    else
      var n := 1 + NameRun(identity[1..], true);
      var named := [Label(METRIC_NAME_LABEL, identity[..n])];
      var after := SkipSpaces(identity[n..]);
      if after == [] then Some(named)
      else if after[0] != OPEN_BRACE then None
      else
        match LabelSet(after[1..], named)
        case Ok((labels, rest)) => if rest == [] then Some(labels) else None
        case Err(_) => None
  }

  lemma HeadIsLocal(s: Text)
    requires s != [] && SeriesHead(s).Ok?
    ensures LabelsOf(SeriesHead(s).value.identity) == Some(SeriesHead(s).value.labels)
  {
    hide LabelSet, NameRun, SkipSpaces, IsNameStart, IsNameContinue;
    var n := 1 + NameRun(s[1..], true);
    var after := SkipSpaces(s[n..]);
    if after != [] && after[0] == OPEN_BRACE {
      BracedHeadIsLocal(s);
    } else {
      var identity := s[..n];
      assert s[1..] == identity[1..] + s[n..];
      NameRunCut(identity[1..], s[n..], true);
      assert identity[n..] == [] && identity[..n] == identity;
      NoSpaces();
    }
  }

  lemma NoSpaces()
    ensures SkipSpaces([]) == []
  {
  }

  lemma BracedHeadIsLocal(s: Text)
    requires s != [] && IsNameStart(s[0], true)
    requires
      var after := SkipSpaces(s[1 + NameRun(s[1..], true)..]);
      after != [] && after[0] == OPEN_BRACE
    requires SeriesHead(s).Ok?
    ensures LabelsOf(SeriesHead(s).value.identity) == Some(SeriesHead(s).value.labels)
  {
    hide LabelSet, NameRun, SkipSpaces, IsNameStart, IsNameContinue;
    var n := 1 + NameRun(s[1..], true);
    var named := [Label(METRIC_NAME_LABEL, s[..n])];
    var after := SkipSpaces(s[n..]);
    var (labels, rest) := LabelSet(after[1..], named).value;
    var k := |s| - |rest|;
    var x, y := s[..k], s[k..];
    assert y == rest by {
      SkipSpacesIsSuffix(s[n..]);
      LabelSetIsSuffix(after[1..], named);
    }
    assert s == x + y && s[1..] == x[1..] + y && s[n..] == x[n..] + y && s[..n] == x[..n];
    NameRunCut(x[1..], y, true);
    SkipSpacesCut(x[n..], y);
    var after' := SkipSpaces(x[n..]);
    assert after[1..] == after'[1..] + y && after'[0] == after[0];
    LabelSetCut(after'[1..], y, named, labels);
    assert x[0] == s[0] && 1 + NameRun(x[1..], true) == n;
    assert LabelsOf(x) == Some(labels);
  }

  /** `rest` is what is left of `s` after reading some of it. */
  predicate IsSuffix(rest: Text, s: Text) {
    |rest| <= |s| && rest == s[|s| - |rest|..]
  }

  lemma SuffixOfTail(rest: Text, s: Text, n: nat)
    requires n <= |s| && IsSuffix(rest, s[n..])
    ensures IsSuffix(rest, s)
  {
  }

  lemma SuffixTransitive(a: Text, b: Text, c: Text)
    requires IsSuffix(a, b) && IsSuffix(b, c)
    ensures IsSuffix(a, c)
  {
    SuffixOfTail(a, c, |c| - |b|);
  }

  lemma {:induction false} SkipSpacesIsSuffix(s: Text)
    ensures IsSuffix(SkipSpaces(s), s)
  {
    if s != [] && IsSpace(s[0]) {
      SkipSpacesIsSuffix(s[1..]);
      SuffixOfTail(SkipSpaces(s), s, 1);
    }
  }

  lemma QuotedValueIsSuffix(s: Text)
    requires QuotedValue(s).Ok?
    ensures IsSuffix(QuotedValue(s).value.1, s)
  {
    hide IsSuffix, SkipSpaces, Unescape;
    var sign := SkipSpaces(s);
    var quote := SkipSpaces(sign[1..]);
    SkipSpacesIsSuffix(s);
    SkipSpacesIsSuffix(sign[1..]);
    var rest := QuotedValue(s).value.1;
    TailIsSuffix(quote[1..], CloseQuote(quote[1..]).value + 1);
    SuffixOfTail(rest, quote, 1);
    SuffixTransitive(rest, quote, sign[1..]);
    SuffixOfTail(rest, sign, 1);
    SuffixTransitive(rest, sign, s);
  }

  lemma TailIsSuffix(s: Text, n: nat)
    requires n <= |s|
    ensures IsSuffix(s[n..], s)
  {
  }

  lemma {:induction false} LabelSetIsSuffix(s: Text, labels: seq<Label>)
    requires LabelSet(s, labels).Ok?
    ensures IsSuffix(LabelSet(s, labels).value.1, s)
    decreases |s|
  {
    hide IsSuffix, SkipSpaces, QuotedValue, NameFault;
    var found := LabelSet(s, labels).value.1;
    var start := SkipSpaces(s);
    SkipSpacesIsSuffix(s);
    if start[0] == CLOSE_BRACE {
      TailIsSuffix(start, 1);
    } else {
      var n := 1 + NameRun(start[1..], false);
      var (pair, rest) := OneLabel(start, labels).value;
      var next := SkipSpaces(rest);
      QuotedValueIsSuffix(start[n..]);
      SkipSpacesIsSuffix(rest);
      if next[0] == COMMA {
        LabelSetIsSuffix(next[1..], labels + [pair]);
      } else {
        TailIsSuffix(next[1..], 0);
      }
      assert found == next[1..] || IsSuffix(found, next[1..]);
      SuffixOfTail(found, next, 1);
      SuffixTransitive(found, next, rest);
      SuffixTransitive(found, rest, start[n..]);
      SuffixOfTail(found, start, n);
    }
    SuffixTransitive(found, start, s);
  }

  /** The identity bytes of a line that holds a series. */
  function IdentityOf(line: Text): Option<Text> {
    var s := SkipSpaces(line);
    if s == [] || s[0] == HASH then None
    else
      match SeriesHead(s)
      case Ok(head) => Some(head.identity)
      case Err(_) => None
  }

  /** A series' labels are a function of its identity bytes: value, timestamp and exemplar
      have no say, nor does the clock. */
  lemma IdentityLocality(line: Text, tokens: Tokens, defaultMs: i64, honor: bool)
    requires Line(line, tokens, defaultMs, honor).Ok? && Line(line, tokens, defaultMs, honor).value.Some?
    ensures IdentityOf(line).Some?
    ensures
      var series := Line(line, tokens, defaultMs, honor).value.value;
      && LabelsOf(IdentityOf(line).value) == Some(series.labels)
      && series.identityHash == tokens.hash(IdentityOf(line).value)
  {
    hide SeriesHead, SampleTail, LabelsOf;
    HeadIsLocal(SkipSpaces(line));
  }

  // ----- bodies

  function Joined(a: Result<seq<TimeSeries>, ParseError>, b: Result<seq<TimeSeries>, ParseError>)
    : Result<seq<TimeSeries>, ParseError>
  {
    if a.Err? then a else if b.Err? then b else Ok(a.value + b.value)
  }

  function LineCount(body: Text): nat
    decreases |body|
  {
    if body == [] then 0 else 1 + LineCount(AfterLine(body))
  }

  lemma {:induction false} LineEndAppend(a: Text, b: Text)
    requires LineEnd(a) < |a|
    ensures LineEnd(a + b) == LineEnd(a)
  {
    if a[0] != LINE_FEED {
      assert (a + b)[1..] == a[1..] + b;
      LineEndAppend(a[1..], b);
    }
  }

  lemma LineEndFound(a: Text)
    requires a != [] && a[|a| - 1] == LINE_FEED
    ensures LineEnd(a) < |a|
  {
  }

  /** Parsing a body split after a line feed is parsing the parts one after the other. */
  lemma {:induction false} BodySplits(
    a: Text, b: Text, lineNo: nat, tokens: Tokens, defaultMs: i64, honor: bool)
    requires a == [] || a[|a| - 1] == LINE_FEED
    ensures Body(a + b, lineNo, tokens, defaultMs, honor) ==
      Joined(Body(a, lineNo, tokens, defaultMs, honor), Body(b, lineNo + LineCount(a), tokens, defaultMs, honor))
    decreases |a|
  {
    hide Line, LineEnd, AfterLine, WithoutReturn, WithSeries, Joined;
    if a == [] {
      assert a + b == b;
      JoinedEmpty(Body(b, lineNo, tokens, defaultMs, honor));
    } else {
      FirstLineAppend(a, b);
      BodySplits(AfterLine(a), b, lineNo + 1, tokens, defaultMs, honor);
      var line := Line(WithoutReturn(a[..LineEnd(a)]), tokens, defaultMs, honor);
      var rest := Body(AfterLine(a), lineNo + 1, tokens, defaultMs, honor);
      var second := Body(b, lineNo + LineCount(a), tokens, defaultMs, honor);
      if line.Ok? {
        JoinedWithSeries(line.value, rest, second);
      } else {
        JoinedError(line.error, lineNo, second);
      }
    }
  }

  lemma JoinedEmpty(r: Result<seq<TimeSeries>, ParseError>)
    ensures Joined(Ok([]), r) == r
  {
    assert r.Ok? ==> [] + r.value == r.value;
  }

  lemma JoinedError(failure: Failure, lineNo: nat, b: Result<seq<TimeSeries>, ParseError>)
    ensures Joined(Err(ParseError(lineNo, failure)), b) == Err(ParseError(lineNo, failure))
  {
  }

  lemma FirstLineAppend(a: Text, b: Text)
    requires a != [] && a[|a| - 1] == LINE_FEED
    ensures (a + b)[..LineEnd(a + b)] == a[..LineEnd(a)]
    ensures AfterLine(a + b) == AfterLine(a) + b
    ensures AfterLine(a) == [] || AfterLine(a)[|AfterLine(a)| - 1] == LINE_FEED
  {
    LineEndFound(a);
    LineEndAppend(a, b);
  }

  lemma JoinedWithSeries(
    found: Option<TimeSeries>, a: Result<seq<TimeSeries>, ParseError>, b: Result<seq<TimeSeries>, ParseError>)
    ensures Joined(WithSeries(found, a), b) == WithSeries(found, Joined(a, b))
  {
    if a.Ok? && b.Ok? {
      var first := if found.Some? then [found.value] else [];
      assert first + (a.value + b.value) == (first + a.value) + b.value;
    }
  }
}
