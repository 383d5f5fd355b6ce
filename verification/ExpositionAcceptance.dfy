/**
 The parser accepts exactly what the grammar spells, and gives it the meaning the grammar does
 (`src/parser.rs:79-573`).
 */
module ExpositionAcceptance {
  import opened Basics
  import opened Names
  import opened Ascii
  import opened Model
  import opened ExpositionText
  import opened ExpositionGrammar
  import opened ExpositionRoundTrip

  // ----- blanks

  /** The blank that is skipped. */
  function Skipped(s: Text): Text {
    s[..|s| - |SkipSpaces(s)|]
  }

  lemma {:induction false} SkippedIsBlank(s: Text)
    ensures Blank(Skipped(s)) && s == Skipped(s) + SkipSpaces(s)
  {
    if s != [] && IsSpace(s[0]) {
      SkippedIsBlank(s[1..]);
      assert Skipped(s) == [s[0]] + Skipped(s[1..]);
    } else {
      assert Skipped(s) == [];
    }
  }

  lemma NoFeedIn(a: Text, b: Text)
    requires LINE_FEED !in a + b
    ensures LINE_FEED !in a && LINE_FEED !in b
  {
    assert forall i | 0 <= i < |a| :: (a + b)[i] == a[i];
    assert forall i | 0 <= i < |b| :: (a + b)[|a| + i] == b[i];
  }

  // ----- label values

  /** Within a line every value has one spelling. */
  lemma {:induction false} UnescapedIsEscaped(s: Text)
    requires CloseQuote(s).Ok? && Unescape(s[..CloseQuote(s).value]).Some?
    requires LINE_FEED !in s[..CloseQuote(s).value]
    ensures s[..CloseQuote(s).value] == Escaped(Unescape(s[..CloseQuote(s).value]).value)
  {
    var n := CloseQuote(s).value;
    var raw := s[..n];
    if n > 0 {
      if s[0] == BACKSLASH {
        assert raw[2..] == s[2..][..n - 2];
        NoFeedIn(raw[..2], raw[2..]);
        assert raw == raw[..2] + raw[2..];
        UnescapedIsEscaped(s[2..]);
        EscapedPair(raw);
      } else {
        assert raw[1..] == s[1..][..n - 1];
        assert raw == raw[..1] + raw[1..];
        NoFeedIn(raw[..1], raw[1..]);
        UnescapedIsEscaped(s[1..]);
        EscapedByte(raw);
      }
    }
  }

  lemma EscapedPair(raw: Text)
    requires |raw| >= 2 && raw[0] == BACKSLASH && Unescape(raw).Some?
    requires raw[2..] == Escaped(Unescape(raw[2..]).GetOr([]))
    ensures raw == Escaped(Unescape(raw).value)
  {
    var value := Unescape(raw).value;
    assert value[1..] == Unescape(raw[2..]).value;
    assert raw == [raw[0], raw[1]] + raw[2..];
  }

  lemma EscapedByte(raw: Text)
    requires raw != [] && raw[0] != BACKSLASH && raw[0] != QUOTE && raw[0] != LINE_FEED && Unescape(raw).Some?
    requires raw[1..] == Escaped(Unescape(raw[1..]).GetOr([]))
    ensures raw == Escaped(Unescape(raw).value)
  {
    var value := Unescape(raw).value;
    assert value[1..] == Unescape(raw[1..]).value;
    assert raw == [raw[0]] + raw[1..];
  }

  lemma QuotedIsSpelled(s: Text, name: Text, before: Text, after: Text) returns (p: Pair)
    requires QuotedValue(s).Ok? && LINE_FEED !in s
    ensures p.before == before && p.after == after && p.entry == Label(name, QuotedValue(s).value.0)
    ensures Blank(p.beforeSign) && Blank(p.afterSign)
    ensures s == PrintQuoted(p) + QuotedValue(s).value.1
  {
    hide CloseQuote, Unescape, Escaped, SkipSpaces, Skipped, Blank;
    var (value, rest) := QuotedValue(s).value;
    var sign := SkipSpaces(s);
    var quote := SkipSpaces(sign[1..]);
    var n := CloseQuote(quote[1..]).value;
    SkippedIsBlank(s);
    SkippedIsBlank(sign[1..]);
    p := Pair(before, Label(name, value), Skipped(s), Skipped(sign[1..]), after);
    var raw := quote[1..][..n];
    assert quote == [QUOTE] + (raw + ([QUOTE] + rest));
    assert sign == [EQUALS] + sign[1..];
    assert LINE_FEED !in raw by {
      NoFeedIn(Skipped(s), sign);
      NoFeedIn([EQUALS], sign[1..]);
      NoFeedIn(Skipped(sign[1..]), quote);
      NoFeedIn([QUOTE], raw + ([QUOTE] + rest));
      NoFeedIn(raw, [QUOTE] + rest);
    }
    UnescapedIsEscaped(quote[1..]);
    assert raw == Escaped(value);
    var quoted := [QUOTE] + (Escaped(value) + ([QUOTE] + rest));
    assert s == p.beforeSign + ([EQUALS] + (p.afterSign + quoted));
    assert PrintQuoted(p) + rest == p.beforeSign + ([EQUALS] + (p.afterSign + quoted));
  }

  // ----- label sets

  lemma NoFault(name: Text, labels: seq<Label>)
    requires NameFault(name, labels).None?
    ensures name != NAME_LABEL && !HasName(labels, name) && |labels| < 128
  {
    hide HasName;
    ReservedName();
  }

  lemma EntryIsSpelled(s: Text, labels: seq<Label>, before: Text, after: Text) returns (p: Pair)
    requires s != [] && OneLabel(s, labels).Ok? && LINE_FEED !in s && Blank(before) && Blank(after)
    ensures p.before == before && p.after == after && p.entry == OneLabel(s, labels).value.0
    ensures PairOk(p) && !HasName(labels, p.entry.name) && |labels| < 128
    ensures s == p.entry.name + (PrintQuoted(p) + OneLabel(s, labels).value.1)
  {
    hide QuotedValue, NameFault, PrintQuoted, HasName, NameRun, Blank, LabelName, IsNameStart, IsNameContinue;
    var n := 1 + NameRun(s[1..], false);
    var name := s[..n];
    assert s == name + s[n..];
    NoFeedIn(name, s[n..]);
    NoFault(name, labels);
    MetricNameIs(name);
    assert forall i | 1 <= i < n :: name[i] == s[1..][i - 1];
    NameContinues(s);
    p := QuotedIsSpelled(s[n..], name, before, after);
  }

  lemma NameContinues(s: Text)
    requires s != []
    ensures IsNameStart(s[0], false) ==> IsNameContinue(s[0], false)
    ensures IsNameStart(s[0], true) ==> IsNameContinue(s[0], true)
  {
  }

  lemma PairsCons(before: seq<Label>, p: Pair, pairs: seq<Pair>)
    requires PairOk(p) && !HasName(before, p.entry.name) && |before| < 128
    requires PairsOk(before + [p.entry], pairs)
    ensures PairsOk(before, [p] + pairs)
    ensures before + LabelsIn([p] + pairs) == (before + [p.entry]) + LabelsIn(pairs)
  {
    hide PairOk;
    var all := [p] + pairs;
    forall i | 0 < i < |all|
      ensures PairOk(all[i]) && !HasName(before, all[i].entry.name) && all[i].entry.name != p.entry.name
    {
      assert all[i] == pairs[i - 1] && !HasName(before + [p.entry], pairs[i - 1].entry.name);
      assert (before + [p.entry])[|before|] == p.entry;
      assert forall k | 0 <= k < |before| :: (before + [p.entry])[k] == before[k];
    }
  }

  lemma NoPairs(before: seq<Label>)
    ensures PairsOk(before, []) && before + LabelsIn([]) == before
  {
  }

  /** What a label set is read from spells it. */
  lemma {:induction false} LabelSetIsSpelled(s: Text, before: seq<Label>)
    returns (pairs: seq<Pair>, comma: bool, pad: Text)
    requires LabelSet(s, before).Ok? && LINE_FEED !in s
    ensures PairsOk(before, pairs) && Blank(pad)
    ensures LabelSet(s, before).value.0 == before + LabelsIn(pairs)
    ensures s == PrintPairs(pairs, comma, pad) + LabelSet(s, before).value.1
    decreases |s|
  {
    hide OneLabel, SkipSpaces, Skipped, PairsOk, PairOk, PrintPair, Blank, HasName;
    var (found, rest) := LabelSet(s, before).value;
    var start := SkipSpaces(s);
    SkippedIsBlank(s);
    if start[0] == CLOSE_BRACE {
      pairs, comma, pad := [], false, Skipped(s);
      NoPairs(before);
      assert start == [CLOSE_BRACE] + rest;
      NoPairsPrinted(comma, pad, rest);
    } else {
      var after := OneLabel(start, before).value.1;
      var next := SkipSpaces(after);
      SkippedIsBlank(after);
      NoFeedIn(Skipped(s), start);
      var p := EntryIsSpelled(start, before, Skipped(s), Skipped(after));
      PrintedPair(p, s, start, after, next);
      assert next == [next[0]] + next[1..];
      if next[0] == COMMA {
        NoFeedIn(PrintPair(p), next);
        NoFeedIn([COMMA], next[1..]);
        var more, moreComma, morePad := LabelSetIsSpelled(next[1..], before + [p.entry]);
        pairs, comma, pad := [p] + more, more == [] || moreComma, morePad;
        PairsCons(before, p, more);
        assert pairs[1..] == more;
        CommaPairs(p, more, moreComma, morePad, rest);
      } else {
        pairs, comma, pad := [p], false, [];
        NoPairs(before + [p.entry]);
        PairsCons(before, p, []);
        assert [p] + [] == [p];
        BlankEmpty();
        PairsPrinted(pairs, comma, pad, rest);
      }
    }
  }

  lemma BlankEmpty()
    ensures Blank([])
  {
  }

  lemma PrintedPair(p: Pair, s: Text, start: Text, after: Text, next: Text)
    requires s == p.before + start && start == p.entry.name + (PrintQuoted(p) + after) && after == p.after + next
    ensures s == PrintPair(p) + next
  {
    hide PrintQuoted;
  }

  lemma CommaPairs(p: Pair, more: seq<Pair>, comma: bool, pad: Text, rest: Text)
    ensures PrintPairs([p] + more, more == [] || comma, pad) + rest
      == PrintPair(p) + ([COMMA] + (PrintPairs(more, comma, pad) + rest))
  {
    hide PrintPair;
    var pairs := [p] + more;
    assert pairs[1..] == more;
    PairsPrinted(pairs, more == [] || comma, pad, rest);
  }

  // ----- lines

  /** A head, what it spells and what follows it. */
  datatype SpelledHead = SpelledHead(name: Text, gap: Text, braces: Option<Braces>, after: Text)

  ghost predicate HeadSpells(h: SpelledHead, s: Text, head: Head) {
    && MetricName(h.name) && Blank(h.gap) && Blank(h.after)
    && match h.braces
       case Some(braces) =>
         && PairsOk([Label(NAME_LABEL, h.name)], braces.pairs) && Blank(braces.pad)
         && head.identity == h.name + (h.gap + ([OPEN_BRACE] + PrintSet(braces)))
         && head.labels == [Label(NAME_LABEL, h.name)] + LabelsIn(braces.pairs)
         && s == head.identity + (h.after + head.rest)
       case None =>
         && head.identity == h.name && head.labels == [Label(NAME_LABEL, h.name)]
         && s == h.name + (h.gap + head.rest)
         && (head.rest != [] ==> head.rest[0] != OPEN_BRACE)
         && (h.gap == [] && head.rest != [] ==> !NameByte(head.rest[0]) && head.rest[0] != ':' as int)
  }

  lemma HeadIsSpelled(s: Text) returns (h: SpelledHead)
    requires s != [] && SeriesHead(s).Ok? && LINE_FEED !in s
    ensures HeadSpells(h, s, SeriesHead(s).value)
  {
    hide LabelSet, NameRun, SkipSpaces, Skipped, PairsOk, Blank, PrintPairs, MetricName, IsNameStart, IsNameContinue,
      NameByte;
    var n := 1 + NameRun(s[1..], true);
    var name, after := s[..n], SkipSpaces(s[n..]);
    ReservedName();
    NameContinues(s);
    MetricNameIs(name);
    assert forall i | 1 <= i < n :: name[i] == s[1..][i - 1];
    SkippedIsBlank(s[n..]);
    BlankEmpty();
    var gap := Skipped(s[n..]);
    assert s == name + (gap + after);
    if after != [] && after[0] == OPEN_BRACE {
      var named := [Label(METRIC_NAME_LABEL, name)];
      var (labels, rest) := LabelSet(after[1..], named).value;
      assert after == [OPEN_BRACE] + after[1..];
      NoFeedIn(name, gap + after);
      NoFeedIn(gap, after);
      NoFeedIn([OPEN_BRACE], after[1..]);
      var pairs, comma, pad := LabelSetIsSpelled(after[1..], named);
      SkippedIsBlank(rest);
      h := SpelledHead(name, gap, Some(Braces(pairs, comma, pad)), Skipped(rest));
      BracedIdentity(s, name, gap, h.braces.value, rest);
    } else {
      h := SpelledHead(name, gap, None, []);
      if gap == [] && after != [] {
        assert after == s[n..] && s[1..][n - 1] == after[0];
        NameStartIs(after[0]);
      }
    }
  }

  lemma BracedIdentity(s: Text, name: Text, gap: Text, braces: Braces, rest: Text)
    requires s == name + (gap + ([OPEN_BRACE] + (PrintSet(braces) + rest)))
    ensures
      var identity := name + (gap + ([OPEN_BRACE] + PrintSet(braces)));
      s == identity + rest && s[..|s| - |rest|] == identity
  {
    hide PrintSet;
    var identity := name + (gap + ([OPEN_BRACE] + PrintSet(braces)));
    assert s == identity + rest;
  }

  /** A tail, with the same names as the parts of a spelling. */
  datatype SpelledTail = SpelledTail(token: Text, stamp: Option<Stamp>, pad: Text, remark: Option<Text>)

  /** The line of a head and a tail. */
  function Assembled(lead: Text, h: SpelledHead, t: SpelledTail): Spelling {
    Spelling(lead, h.name, h.gap, h.braces, h.after, t.token, t.stamp, t.pad, t.remark)
  }

  lemma {:induction false} TokenRunIsWord(s: Text)
    requires s != [] && !IsSpace(s[0])
    ensures Word(s[..TokenRun(s)]) && s == s[..TokenRun(s)] + s[TokenRun(s)..]
  {
  }

  /** The blank and the remark at the end of a line. */
  lemma RemarkIsSpelled(s: Text) returns (pad: Text, remark: Option<Text>)
    requires s == [] || IsSpace(s[0])
    requires SkipSpaces(s) == [] || SkipSpaces(s)[0] == HASH
    ensures Blank(pad) && s == PrintRemark(pad, remark) && (remark.Some? ==> pad != [])
  {
    SkippedIsBlank(s);
    var rest := SkipSpaces(s);
    pad := Skipped(s);
    if rest == [] {
      remark := None;
    } else {
      remark := Some(rest[1..]);
      assert rest == [HASH] + rest[1..];
    }
  }

  lemma TailIsSpelled(s: Text, tokens: Tokens, defaultMs: i64, honor: bool) returns (t: SpelledTail)
    requires (s != [] ==> !IsSpace(s[0])) && SampleTail(s, tokens, defaultMs, honor).Ok?
    ensures t.token != []
    ensures s == t.token + (PrintStamp(t.stamp) + PrintRemark(t.pad, t.remark))
    ensures forall lead, h {:trigger Assembled(lead, h, t)} :: TailOk(Assembled(lead, h, t), tokens)
    ensures SampleTail(s, tokens, defaultMs, honor).value == Sample(
      tokens.value(t.token).GetOr(0),
      if honor && t.stamp.Some? then tokens.timestamp(t.stamp.value.token).GetOr(0) else defaultMs)
  {
    hide TokenRun, SkipSpaces, Skipped, PrintRemark, Word, Blank;
    var n := TokenRun(s);
    var token, rest := s[..n], s[n..];
    var after := SkipSpaces(rest);
    TokenRunIsWord(s);
    WordStarts(token);
    if after == [] || after[0] == HASH {
      var pad, remark := RemarkIsSpelled(rest);
      t := SpelledTail(token, None, pad, remark);
      assert PrintStamp(None) + PrintRemark(pad, remark) == rest;
    } else {
      var m := TokenRun(after);
      SkippedIsBlank(rest);
      TokenRunIsWord(after);
      var gap, stamp := Skipped(rest), after[..m];
      StampApart(rest, gap, after);
      assert stamp[0] == after[0] by { WordStarts(stamp); }
      var pad, remark := RemarkIsSpelled(after[m..]);
      t := SpelledTail(token, Some(Stamp(gap, stamp)), pad, remark);
      assert rest == (gap + stamp) + after[m..];
    }
  }

  lemma WordStarts(word: Text)
    requires Word(word)
    ensures word != []
  {
  }

  /** A blank stands between a word and the next. */
  lemma StampApart(rest: Text, gap: Text, after: Text)
    requires rest == gap + after && after != [] && !IsSpace(after[0]) && (rest == [] || IsSpace(rest[0]))
    ensures gap != []
  {
  }

  lemma LineIsSpelled(line: Text, tokens: Tokens, defaultMs: i64, honor: bool) returns (sp: Spelling)
    requires LINE_FEED !in line
    requires Line(line, tokens, defaultMs, honor).Ok? && Line(line, tokens, defaultMs, honor).value.Some?
    ensures SpellingOk(sp, tokens) && PrintLine(sp) == line
    ensures Line(line, tokens, defaultMs, honor).value.value == Meaning(sp, tokens, defaultMs, honor)
  {
    hide SeriesHead, SampleTail, SkipSpaces, Skipped, PairsOk, Blank, PrintSet, MetricName, NameByte, PrintRemark,
      PrintStamp, Word;
    var s := SkipSpaces(line);
    var head := SeriesHead(s).value;
    SkippedIsBlank(line);
    NoFeedIn(Skipped(line), s);
    var h := HeadIsSpelled(s);
    RestStarts(s);
    var t := TailIsSpelled(head.rest, tokens, defaultMs, honor);
    sp := Assembled(Skipped(line), h, t);
    TokenFirst(head.rest, t.token, PrintStamp(t.stamp) + PrintRemark(t.pad, t.remark));
    HeadAssembled(Skipped(line), h, t, s, head);
    assert TailOk(sp, tokens);
  }

  lemma HeadAssembled(lead: Text, h: SpelledHead, t: SpelledTail, s: Text, head: Head)
    requires HeadSpells(h, s, head) && Blank(lead)
    requires t.token != [] && head.rest != [] && head.rest[0] == t.token[0]
    requires head.rest == t.token + (PrintStamp(t.stamp) + PrintRemark(t.pad, t.remark))
    ensures
      var sp := Assembled(lead, h, t);
      && HeadOk(sp) && Identity(sp) == head.identity && PrintLine(sp) == lead + s
      && head.labels
        == [Label(NAME_LABEL, sp.name)] + (if sp.braces.Some? then LabelsIn(sp.braces.value.pairs) else [])
  {
    hide PairsOk, Blank, PrintSet, MetricName, NameByte, PrintRemark, PrintStamp;
    assert [Label(NAME_LABEL, h.name)] + [] == [Label(NAME_LABEL, h.name)];
  }

  lemma TokenFirst(s: Text, token: Text, rest: Text)
    requires s == token + rest
    ensures token != [] ==> s != [] && s[0] == token[0]
  {
  }

  lemma RestStarts(s: Text)
    requires s != [] && SeriesHead(s).Ok?
    ensures SeriesHead(s).value.rest != [] ==> !IsSpace(SeriesHead(s).value.rest[0])
  {
    hide LabelSet, NameRun;
  }

  ghost predicate Spells(sp: Spelling, line: Text, tokens: Tokens, defaultMs: i64, honor: bool, series: TimeSeries) {
    SpellingOk(sp, tokens) && PrintLine(sp) == line && Meaning(sp, tokens, defaultMs, honor) == series
  }

  /** A line holds a series exactly when it spells it; it holds none exactly when it is blank up to
      a remark; any other line is malformed. */
  lemma LineExactly(line: Text, tokens: Tokens, defaultMs: i64, honor: bool, series: TimeSeries)
    requires LINE_FEED !in line
    ensures Line(line, tokens, defaultMs, honor) == Ok(Some(series)) <==>
      exists sp :: Spells(sp, line, tokens, defaultMs, honor, series)
    ensures Line(line, tokens, defaultMs, honor) == Ok(None) <==>
      exists lead, remark :: Blank(lead) && line == PrintRemark(lead, remark)
  {
    hide SpellingOk, Blank, PrintRemark, SeriesHead, SampleTail, Meaning, PrintLine;
    if Line(line, tokens, defaultMs, honor) == Ok(Some(series)) {
      var sp := LineIsSpelled(line, tokens, defaultMs, honor);
      assert Spells(sp, line, tokens, defaultMs, honor, series);
    }
    if sp :| Spells(sp, line, tokens, defaultMs, honor, series) {
      LineRoundTrip(sp, tokens, defaultMs, honor);
    }
    if Line(line, tokens, defaultMs, honor) == Ok(None) {
      var lead, remark := NoSeriesIsRemark(line);
    }
    if lead, remark :| Blank(lead) && line == PrintRemark(lead, remark) {
      RemarkRoundTrip(lead, remark, tokens, defaultMs, honor);
    }
  }

  lemma NoSeriesIsRemark(line: Text) returns (lead: Text, remark: Option<Text>)
    requires SkipSpaces(line) == [] || SkipSpaces(line)[0] == HASH
    ensures Blank(lead) && line == PrintRemark(lead, remark)
  {
    SkippedIsBlank(line);
    var rest := SkipSpaces(line);
    lead := Skipped(line);
    if rest == [] {
      remark := None;
    } else {
      remark := Some(rest[1..]);
      assert rest == [HASH] + rest[1..];
    }
  }

  // ----- bodies

  lemma ContentIsSpelled(line: Text, tokens: Tokens, defaultMs: i64, honor: bool) returns (content: Content)
    requires LINE_FEED !in line && Line(line, tokens, defaultMs, honor).Ok?
    ensures PrintContent(content) == line
    ensures match content
            case Series(sp) =>
              && SpellingOk(sp, tokens)
              && Line(line, tokens, defaultMs, honor) == Ok(Some(Meaning(sp, tokens, defaultMs, honor)))
            case Remark(lead, _) => Blank(lead) && Line(line, tokens, defaultMs, honor) == Ok(None)
  {
    hide SpellingOk, Blank, PrintRemark, SeriesHead, SampleTail, Meaning, PrintLine;
    if Line(line, tokens, defaultMs, honor).value.Some? {
      var sp := LineIsSpelled(line, tokens, defaultMs, honor);
      content := Series(sp);
    } else {
      var lead, remark := NoSeriesIsRemark(line);
      content := Remark(lead, remark);
    }
  }

  /** The line feed that ends the first line of a body, if one does. */
  function FirstFeed(body: Text): Text {
    if LineEnd(body) < |body| then [LINE_FEED] else []
  }

  /** What ends the first line of a body. */
  function FirstEnd(body: Text): Text {
    var raw := body[..LineEnd(body)];
    (if WithoutReturn(raw) == raw then [] else [CARRIAGE_RETURN]) + FirstFeed(body)
  }

  lemma FirstLineIs(body: Text)
    requires body != []
    ensures
      var content := WithoutReturn(body[..LineEnd(body)]);
      && body == content + (FirstEnd(body) + AfterLine(body))
      && LINE_FEED !in content
      && EndOk(FirstEnd(body), AfterLine(body) == [])
      && (FirstEnd(body) == [] || FirstEnd(body) == [LINE_FEED] ==> EndsWithoutReturn(content))
  {
    hide LineEnd, WithoutReturn, AfterLine;
    var raw := body[..LineEnd(body)];
    var content := WithoutReturn(raw);
    var back: Text := if content == raw then [] else [CARRIAGE_RETURN];
    ReturnIs(raw);
    FeedIs(body);
    assert content + back == raw by {
      assert content + [] == content;
    }
    if back != [] {
      assert FirstEnd(body)[0] == CARRIAGE_RETURN;
    }
    Regroup(back, FirstFeed(body), AfterLine(body));
    Regroup(content, back, FirstFeed(body) + AfterLine(body));
  }

  lemma FeedIs(body: Text)
    ensures body == body[..LineEnd(body)] + (FirstFeed(body) + AfterLine(body))
    ensures FirstFeed(body) == [] ==> AfterLine(body) == []
  {
    hide LineEnd;
    var n := LineEnd(body);
    if n < |body| {
      assert body == body[..n] + ([LINE_FEED] + body[n + 1..]);
    } else {
      assert body == body[..n] && FirstFeed(body) + AfterLine(body) == [];
    }
  }

  lemma ReturnIs(raw: Text)
    requires LINE_FEED !in raw
    ensures LINE_FEED !in WithoutReturn(raw)
    ensures if WithoutReturn(raw) == raw then EndsWithoutReturn(raw)
            else raw == WithoutReturn(raw) + [CARRIAGE_RETURN]
  {
  }

  lemma BodyCons(line: BodyLine, more: seq<BodyLine>, tokens: Tokens, defaultMs: i64, honor: bool)
    requires LineOk(line, tokens) && EndOk(line.end, more == []) && BodyOk(more, tokens)
    ensures BodyOk([line] + more, tokens)
    ensures PrintBody([line] + more) == PrintContent(line.content) + (line.end + PrintBody(more))
    ensures Meanings([line] + more, tokens, defaultMs, honor)
      == LineMeaning(line, tokens, defaultMs, honor) + Meanings(more, tokens, defaultMs, honor)
  {
    hide LineOk, LineMeaning, PrintContent, EndOk;
    var all := [line] + more;
    assert all[1..] == more;
    forall i | 0 <= i < |all|
      ensures LineOk(all[i], tokens) && EndOk(all[i].end, i == |all| - 1)
    {
      assert i > 0 ==> all[i] == more[i - 1];
    }
  }

  lemma {:induction false} BodyIsSpelled(body: Text, lineNo: nat, tokens: Tokens, defaultMs: i64, honor: bool)
    returns (lines: seq<BodyLine>)
    requires Body(body, lineNo, tokens, defaultMs, honor).Ok?
    ensures BodyOk(lines, tokens) && PrintBody(lines) == body
    ensures Meanings(lines, tokens, defaultMs, honor) == Body(body, lineNo, tokens, defaultMs, honor).value
    ensures body == [] ==> lines == []
    decreases |body|
  {
    hide Line, LineEnd, PrintContent, Meaning, WithoutReturn, AfterLine, LineOk, EndOk, FirstEnd, BodyOk, Meanings;
    if body == [] {
      lines := [];
      NothingSpelled(tokens, defaultMs, honor);
    } else {
      FirstLineIs(body);
      var content := ContentIsSpelled(WithoutReturn(body[..LineEnd(body)]), tokens, defaultMs, honor);
      var line := BodyLine(content, FirstEnd(body));
      LineIsOk(line, tokens);
      var more := BodyIsSpelled(AfterLine(body), lineNo + 1, tokens, defaultMs, honor);
      LastEnds(FirstEnd(body), AfterLine(body), more);
      BodyCons(line, more, tokens, defaultMs, honor);
      lines := [line] + more;
    }
  }

  lemma NothingSpelled(tokens: Tokens, defaultMs: i64, honor: bool)
    ensures BodyOk([], tokens) && Meanings([], tokens, defaultMs, honor) == []
  {
  }

  lemma LineIsOk(line: BodyLine, tokens: Tokens)
    requires match line.content
             case Series(sp) => SpellingOk(sp, tokens)
             case Remark(lead, _) => Blank(lead)
    requires LINE_FEED !in PrintContent(line.content)
    requires line.end == [] || line.end == [LINE_FEED] ==> EndsWithoutReturn(PrintContent(line.content))
    ensures LineOk(line, tokens)
  {
    hide SpellingOk, Blank, PrintContent;
  }

  lemma LastEnds(end: Text, rest: Text, more: seq<BodyLine>)
    requires EndOk(end, rest == []) && (rest == [] ==> more == [])
    ensures EndOk(end, more == [])
  {
  }

  ghost predicate BodySpells(
    lines: seq<BodyLine>, body: Text, tokens: Tokens, defaultMs: i64, honor: bool, all: seq<TimeSeries>)
  {
    BodyOk(lines, tokens) && PrintBody(lines) == body && Meanings(lines, tokens, defaultMs, honor) == all
  }

  /** The main result: a scrape body is accepted, with these series, exactly when it is made of sample
      lines that mean them in this order, blank lines and comments, each ended by a line feed, with or
      without a carriage return, that the last line may lack. */
  lemma BodyExactly(
    body: Text, lineNo: nat, tokens: Tokens, defaultMs: i64, honor: bool, all: seq<TimeSeries>)
    ensures Body(body, lineNo, tokens, defaultMs, honor) == Ok(all) <==>
      exists lines :: BodySpells(lines, body, tokens, defaultMs, honor, all)
  {
    hide Body, BodyOk, PrintBody, Meanings;
    if Body(body, lineNo, tokens, defaultMs, honor) == Ok(all) {
      var lines := BodyIsSpelled(body, lineNo, tokens, defaultMs, honor);
      assert BodySpells(lines, body, tokens, defaultMs, honor, all);
    }
    if lines :| BodySpells(lines, body, tokens, defaultMs, honor, all) {
      BodyRoundTrip(lines, lineNo, tokens, defaultMs, honor);
    }
  }
}
