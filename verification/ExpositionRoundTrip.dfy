/** Whatever is spelled by the grammar parses to what it means (`src/parser.rs:186-573`). */
module ExpositionRoundTrip {
  import opened Basics
  import opened Names
  import opened Ascii
  import opened Model
  import opened ExpositionText
  import opened ExpositionGrammar

  // ----- label values

  lemma {:induction false} UnescapeEscaped(value: Text)
    ensures Unescape(Escaped(value)) == Some(value)
  {
    if value != [] {
      UnescapeEscaped(value[1..]);
      var raw := Escaped(value);
      assert value == [value[0]] + value[1..];
      if value[0] == BACKSLASH || value[0] == QUOTE || value[0] == LINE_FEED {
        assert raw[2..] == Escaped(value[1..]);
      } else {
        assert raw[1..] == Escaped(value[1..]);
      }
    }
  }

  lemma CloseQuoteAfterPair(s: Text)
    requires |s| >= 2 && s[0] == BACKSLASH && CloseQuote(s[2..]).Ok?
    ensures CloseQuote(s) == Ok(CloseQuote(s[2..]).value + 2)
  {
  }

  lemma CloseQuoteAfterOne(s: Text)
    requires s != [] && s[0] != BACKSLASH && s[0] != QUOTE && CloseQuote(s[1..]).Ok?
    ensures CloseQuote(s) == Ok(CloseQuote(s[1..]).value + 1)
  {
  }

  lemma CloseQuoteOverPair(second: byte, tail: Text)
    requires CloseQuote(tail).Ok?
    ensures CloseQuote([BACKSLASH, second] + tail) == Ok(CloseQuote(tail).value + 2)
  {
    hide CloseQuote;
    var s := [BACKSLASH, second] + tail;
    assert s[0] == BACKSLASH && s[2..] == tail;
    CloseQuoteAfterPair(s);
  }

  lemma CloseQuoteOverOne(b: byte, tail: Text)
    requires b != BACKSLASH && b != QUOTE && CloseQuote(tail).Ok?
    ensures CloseQuote([b] + tail) == Ok(CloseQuote(tail).value + 1)
  {
    hide CloseQuote;
    var s := [b] + tail;
    assert s[0] == b && s[1..] == tail;
    CloseQuoteAfterOne(s);
  }

  lemma {:induction false} CloseQuoteEscaped(value: Text, rest: Text)
    ensures CloseQuote(Escaped(value) + ([QUOTE] + rest)) == Ok(|Escaped(value)|)
  {
    if value != [] {
      hide CloseQuote;
      CloseQuoteEscaped(value[1..], rest);
      var tail := Escaped(value[1..]) + ([QUOTE] + rest);
      if value[0] == BACKSLASH || value[0] == QUOTE || value[0] == LINE_FEED {
        var second := if value[0] == LINE_FEED then LETTER_N else value[0];
        Regroup([BACKSLASH, second], Escaped(value[1..]), [QUOTE] + rest);
        CloseQuoteOverPair(second, tail);
      } else {
        Regroup([value[0]], Escaped(value[1..]), [QUOTE] + rest);
        CloseQuoteOverOne(value[0], tail);
      }
    }
  }

  /** Any bytes survive escaping, quoting and reading back. */
  lemma LabelValueRoundTrip(value: Text, rest: Text)
    ensures LabelValue(Escaped(value) + ([QUOTE] + rest)) == Ok((value, rest))
  {
    hide CloseQuote, Unescape, Escaped;
    var s, n := Escaped(value) + ([QUOTE] + rest), |Escaped(value)|;
    CloseQuoteEscaped(value, rest);
    UnescapeEscaped(value);
    assert s[..n] == Escaped(value) && s[n + 1..] == rest;
  }

  // ----- blanks, names and words

  lemma NameStartIs(b: byte)
    ensures IsNameStart(b, false) <==> NameByte(b) && !Digit(b)
    ensures IsNameStart(b, true) <==> (NameByte(b) && !Digit(b)) || b == ':' as int
    ensures IsNameContinue(b, false) <==> NameByte(b)
    ensures IsNameContinue(b, true) <==> NameByte(b) || b == ':' as int
  {
  }

  lemma MetricNameIs(name: Text)
    ensures MetricName(name) <==>
      name != [] && IsNameStart(name[0], true) && forall i | 0 <= i < |name| :: IsNameContinue(name[i], true)
    ensures LabelName(name) <==>
      name != [] && IsNameStart(name[0], false) && forall i | 0 <= i < |name| :: IsNameContinue(name[i], false)
  {
  }

  lemma ReservedName()
    ensures METRIC_NAME_LABEL == NAME_LABEL
  {
  }

  /** Nothing to skip in front of a byte that is no blank. */
  lemma {:induction false} SkipBlank(blank: Text, rest: Text)
    requires Blank(blank) && (rest == [] || !IsSpace(rest[0]))
    ensures SkipSpaces(blank + rest) == rest
  {
    var s := blank + rest;
    if blank == [] {
      assert s == rest;
    } else {
      assert s[0] == blank[0] && s[1..] == blank[1..] + rest;
      SkipBlank(blank[1..], rest);
    }
  }

  lemma {:induction false} NameRunOf(name: Text, rest: Text, allowColon: bool)
    requires forall i | 0 <= i < |name| :: IsNameContinue(name[i], allowColon)
    requires rest != [] && !IsNameContinue(rest[0], allowColon)
    ensures NameRun(name + rest, allowColon) == |name|
  {
    if name == [] {
      assert name + rest == rest;
    } else {
      assert (name + rest)[1..] == name[1..] + rest;
      NameRunOf(name[1..], rest, allowColon);
    }
  }

  lemma {:induction false} TokenRunOf(token: Text, rest: Text)
    requires forall i | 0 <= i < |token| :: !IsSpace(token[i])
    requires rest == [] || IsSpace(rest[0])
    ensures TokenRun(token + rest) == |token|
  {
    if token == [] {
      assert token + rest == rest;
    } else {
      assert (token + rest)[1..] == token[1..] + rest;
      TokenRunOf(token[1..], rest);
    }
  }

  /** A word ends at the end or at a blank. */
  lemma WordCut(word: Text, rest: Text)
    requires Word(word) && (rest == [] || IsSpace(rest[0]))
    ensures TokenRun(word + rest) == |word|
    ensures (word + rest)[..|word|] == word && (word + rest)[|word|..] == rest
  {
    TokenRunOf(word, rest);
  }

  // ----- label sets

  lemma QuotedRoundTrip(p: Pair, rest: Text)
    requires Blank(p.beforeSign) && Blank(p.afterSign)
    ensures QuotedValue(PrintQuoted(p) + rest) == Ok((p.entry.value, rest))
  {
    hide LabelValue, Escaped, SkipSpaces, Blank;
    var quoted := Escaped(p.entry.value) + ([QUOTE] + rest);
    var fromQuote := [QUOTE] + quoted;
    var fromSign := [EQUALS] + (p.afterSign + fromQuote);
    assert PrintQuoted(p) + rest == p.beforeSign + fromSign;
    SkipBlank(p.beforeSign, fromSign);
    assert fromSign[1..] == p.afterSign + fromQuote;
    SkipBlank(p.afterSign, fromQuote);
    assert fromQuote[1..] == quoted;
    LabelValueRoundTrip(p.entry.value, rest);
  }

  /** What follows a name in a pair goes on with neither. */
  lemma QuotedStart(p: Pair, rest: Text)
    requires Blank(p.beforeSign)
    ensures
      var s := PrintQuoted(p) + rest;
      s != [] && !IsNameContinue(s[0], false)
  {
    hide Escaped;
    var s := PrintQuoted(p) + rest;
    if p.beforeSign == [] {
      assert s[0] == EQUALS;
    } else {
      assert s[0] == p.beforeSign[0];
    }
  }

  lemma EntryRoundTrip(p: Pair, labels: seq<Label>, rest: Text)
    requires PairOk(p) && NameFault(p.entry.name, labels).None?
    ensures OneLabel(p.entry.name + (PrintQuoted(p) + rest), labels) == Ok((p.entry, rest))
  {
    hide QuotedValue, NameRun, NameFault, PrintQuoted, IsNameStart, IsNameContinue;
    var name, after := p.entry.name, PrintQuoted(p) + rest;
    var s, n := name + after, |p.entry.name|;
    MetricNameIs(name);
    QuotedStart(p, rest);
    assert s[0] == name[0] && s[1..] == name[1..] + after;
    NameRunOf(name[1..], after, false);
    assert s[..n] == name && s[n..] == after;
    QuotedRoundTrip(p, rest);
  }

  lemma Front(b: byte, text: Text)
    ensures ([b] + text)[0] == b && ([b] + text)[1..] == text
  {
  }

  lemma LabelSetEnd(s: Text, before: seq<Label>)
    requires SkipSpaces(s) != [] && SkipSpaces(s)[0] == CLOSE_BRACE
    ensures LabelSet(s, before) == Ok((before, SkipSpaces(s)[1..]))
  {
  }

  lemma LabelSetStep(s: Text, before: seq<Label>, pair: Label, rest: Text)
    requires SkipSpaces(s) != [] && SkipSpaces(s)[0] != CLOSE_BRACE
    requires OneLabel(SkipSpaces(s), before) == Ok((pair, rest)) && SkipSpaces(rest) != []
    ensures
      var tail := SkipSpaces(rest);
      && (tail[0] == COMMA ==> LabelSet(s, before) == LabelSet(tail[1..], before + [pair]))
      && (tail[0] == CLOSE_BRACE ==> LabelSet(s, before) == Ok((before + [pair], tail[1..])))
  {
    hide OneLabel, SkipSpaces;
  }

  /** A pair, then a comma or the closing brace. */
  lemma PairRoundTrip(before: seq<Label>, p: Pair, mark: byte, text: Text)
    requires PairOk(p) && NameFault(p.entry.name, before).None?
    requires mark == COMMA || mark == CLOSE_BRACE
    ensures LabelSet(PrintPair(p) + ([mark] + text), before)
      == if mark == COMMA then LabelSet(text, before + [p.entry]) else Ok((before + [p.entry], text))
  {
    hide OneLabel, LabelSet, SkipSpaces, NameFault, PrintQuoted, Blank, LabelName;
    var tail := [mark] + text;
    var entry := p.entry.name + (PrintQuoted(p) + (p.after + tail));
    assert PrintPair(p) + tail == p.before + entry;
    EntryStart(p, p.after + tail);
    SkipBlank(p.before, entry);
    EntryRoundTrip(p, before, p.after + tail);
    Front(mark, text);
    SkipBlank(p.after, tail);
    LabelSetStep(PrintPair(p) + tail, before, p.entry, p.after + tail);
  }

  lemma EntryStart(p: Pair, rest: Text)
    requires PairOk(p)
    ensures
      var entry := p.entry.name + (PrintQuoted(p) + rest);
      entry != [] && !IsSpace(entry[0]) && entry[0] != CLOSE_BRACE
  {
    hide PrintQuoted;
    var entry := p.entry.name + (PrintQuoted(p) + rest);
    assert entry[0] == p.entry.name[0];
  }

  lemma PairsStep(before: seq<Label>, pairs: seq<Pair>)
    requires PairsOk(before, pairs) && pairs != []
    ensures PairOk(pairs[0]) && NameFault(pairs[0].entry.name, before).None?
    ensures PairsOk(before + [pairs[0].entry], pairs[1..])
  {
    hide PairOk;
    ReservedName();
    PairName(pairs[0]);
    assert !HasName(before, pairs[0].entry.name);
    forall i | 0 <= i < |pairs[1..]|
      ensures PairOk(pairs[1..][i]) && !HasName(before + [pairs[0].entry], pairs[1..][i].entry.name)
    {
      assert !HasName(before, pairs[i + 1].entry.name);
      assert pairs[0].entry.name != pairs[i + 1].entry.name;
    }
  }

  lemma PairName(p: Pair)
    requires PairOk(p)
    ensures p.entry.name != NAME_LABEL
  {
  }

  lemma PairsPrinted(pairs: seq<Pair>, comma: bool, pad: Text, rest: Text)
    requires pairs != []
    ensures PrintPairs(pairs, comma, pad) + rest == PrintPair(pairs[0])
      + (if |pairs| == 1 && !comma then [CLOSE_BRACE] + rest
         else [COMMA] + (PrintPairs(pairs[1..], comma, pad) + rest))
  {
    hide PrintPair;
    if |pairs| == 1 && !comma {
      Regroup(PrintPair(pairs[0]), [CLOSE_BRACE], rest);
    } else {
      Regroup(PrintPair(pairs[0]), [COMMA] + PrintPairs(pairs[1..], comma, pad), rest);
      Regroup([COMMA], PrintPairs(pairs[1..], comma, pad), rest);
    }
  }

  lemma NoPairsPrinted(comma: bool, pad: Text, rest: Text)
    ensures PrintPairs([], comma, pad) + rest == pad + ([CLOSE_BRACE] + rest)
  {
  }

  /** A spelled label set reads back, consuming exactly the set. */
  lemma {:induction false} LabelSetRoundTrip(before: seq<Label>, pairs: seq<Pair>, comma: bool, pad: Text, rest: Text)
    requires PairsOk(before, pairs) && Blank(pad)
    ensures LabelSet(PrintPairs(pairs, comma, pad) + rest, before) == Ok((before + LabelsIn(pairs), rest))
    decreases |pairs|
  {
    hide OneLabel, PrintPair, PrintPairs, LabelSet, SkipSpaces, PairsOk, PairOk, NameFault, Blank;
    if pairs == [] {
      NoPairsPrinted(comma, pad, rest);
      Front(CLOSE_BRACE, rest);
      SkipBlank(pad, [CLOSE_BRACE] + rest);
      LabelSetEnd(pad + ([CLOSE_BRACE] + rest), before);
      assert before + LabelsIn(pairs) == before;
    } else {
      PairsStep(before, pairs);
      PairsPrinted(pairs, comma, pad, rest);
      assert (before + [pairs[0].entry]) + LabelsIn(pairs[1..]) == before + LabelsIn(pairs);
      if |pairs| == 1 && !comma {
        PairRoundTrip(before, pairs[0], CLOSE_BRACE, rest);
        assert before + [pairs[0].entry] == before + LabelsIn(pairs);
      } else {
        PairRoundTrip(before, pairs[0], COMMA, PrintPairs(pairs[1..], comma, pad) + rest);
        LabelSetRoundTrip(before + [pairs[0].entry], pairs[1..], comma, pad, rest);
      }
    }
  }

  // ----- lines

  /** The head of a line and what follows the blank after it. */
  lemma BracesHead(name: Text, gap: Text, braces: Braces, rest: Text)
    requires MetricName(name) && Blank(gap) && Blank(braces.pad)
    requires PairsOk([Label(NAME_LABEL, name)], braces.pairs)
    ensures
      var identity := name + (gap + ([OPEN_BRACE] + PrintSet(braces)));
      SeriesHead(identity + rest) ==
        Ok(Head(identity, [Label(NAME_LABEL, name)] + LabelsIn(braces.pairs), SkipSpaces(rest)))
  {
    hide LabelSet, NameRun, SkipSpaces, PrintPairs, PairsOk, MetricName, Blank, IsNameStart, IsNameContinue, IsSpace;
    var identity := name + (gap + ([OPEN_BRACE] + PrintSet(braces)));
    var set' := PrintSet(braces) + rest;
    var open := [OPEN_BRACE] + set';
    var s := identity + rest;
    BracesApart(name, gap, PrintSet(braces), rest);
    ReservedName();
    GapStart(gap, open);
    NameCut(name, gap + open);
    SkipBlank(gap, open);
    assert open[1..] == set';
    LabelSetRoundTrip([Label(NAME_LABEL, name)], braces.pairs, braces.comma, braces.pad, rest);
  }

  lemma BracesApart(name: Text, gap: Text, set': Text, rest: Text)
    ensures
      var identity := name + (gap + ([OPEN_BRACE] + set'));
      && identity + rest == name + (gap + ([OPEN_BRACE] + (set' + rest)))
      && (identity + rest)[..|identity + rest| - |rest|] == identity
  {
  }

  /** A metric name ends where something else follows. */
  lemma NameCut(name: Text, rest: Text)
    requires MetricName(name) && rest != [] && !IsNameContinue(rest[0], true)
    ensures
      var s := name + rest;
      && s != [] && IsNameStart(s[0], true) && 1 + NameRun(s[1..], true) == |name|
      && s[..|name|] == name && s[|name|..] == rest
  {
    hide MetricName, NameRun, IsNameStart, IsNameContinue;
    MetricNameIs(name);
    var s := name + rest;
    assert s[0] == name[0] && s[1..] == name[1..] + rest;
    NameRunOf(name[1..], rest, true);
  }

  lemma GapStart(gap: Text, open: Text)
    requires Blank(gap) && open != [] && open[0] == OPEN_BRACE
    ensures !IsSpace(open[0]) && gap + open != [] && !IsNameContinue((gap + open)[0], true)
  {
    if gap != [] {
      assert (gap + open)[0] == gap[0];
    } else {
      assert gap + open == open;
    }
  }

  lemma PlainHead(name: Text, gap: Text, rest: Text)
    requires MetricName(name) && Blank(gap) && rest != [] && !IsSpace(rest[0]) && rest[0] != OPEN_BRACE
    requires gap == [] ==> !NameByte(rest[0]) && rest[0] != ':' as int
    ensures SeriesHead(name + (gap + rest)) == Ok(Head(name, [Label(NAME_LABEL, name)], rest))
  {
    hide NameRun, SkipSpaces, MetricName, Blank, IsNameStart, IsNameContinue, IsSpace;
    ReservedName();
    AfterName(gap, rest);
    NameCut(name, gap + rest);
    SkipBlank(gap, rest);
  }

  lemma AfterName(gap: Text, rest: Text)
    requires Blank(gap) && rest != []
    requires gap == [] ==> !NameByte(rest[0]) && rest[0] != ':' as int
    ensures gap + rest != [] && !IsNameContinue((gap + rest)[0], true)
  {
    if gap != [] {
      assert (gap + rest)[0] == gap[0];
    } else {
      assert gap + rest == rest;
    }
  }

  /** What is left of a remark after its blank. */
  lemma RemarkRest(pad: Text, remark: Option<Text>)
    requires Blank(pad)
    ensures SkipSpaces(PrintRemark(pad, remark)) == if remark.Some? then [HASH] + remark.value else []
    ensures remark.None? || pad != [] ==> PrintRemark(pad, remark) == [] || IsSpace(PrintRemark(pad, remark)[0])
  {
    SkipBlank(pad, if remark.Some? then [HASH] + remark.value else []);
  }

  lemma TailRoundTrip(sp: Spelling, tokens: Tokens, defaultMs: i64, honor: bool)
    requires TailOk(sp, tokens)
    ensures SampleTail(PrintTail(sp), tokens, defaultMs, honor) == Ok(Meaning(sp, tokens, defaultMs, honor).sample)
  {
    hide TokenRun, SkipSpaces, Word, PrintRemark, Blank, SampleTail, Identity;
    var end := PrintRemark(sp.pad, sp.remark);
    RemarkRest(sp.pad, sp.remark);
    if sp.stamp.Some? {
      var stamp := sp.stamp.value;
      Regroup(stamp.gap, stamp.token, end);
      StampedTail(sp.token, stamp, end, tokens, defaultMs, honor);
    } else {
      assert PrintStamp(sp.stamp) + end == end;
      PlainTail(sp.token, end, tokens, defaultMs, honor);
    }
  }

  lemma PlainTail(token: Text, end: Text, tokens: Tokens, defaultMs: i64, honor: bool)
    requires Word(token) && tokens.value(token).Some?
    requires (end == [] || IsSpace(end[0])) && (SkipSpaces(end) == [] || SkipSpaces(end)[0] == HASH)
    ensures SampleTail(token + end, tokens, defaultMs, honor) == Ok(Sample(tokens.value(token).value, defaultMs))
  {
    hide TokenRun, SkipSpaces, IsSpace;
    assert token + end != [] by { assert (token + end)[0] == token[0]; }
    hide Word;
    WordCut(token, end);
  }

  lemma StampedTail(token: Text, stamp: Stamp, end: Text, tokens: Tokens, defaultMs: i64, honor: bool)
    requires Word(token) && tokens.value(token).Some?
    requires Blank(stamp.gap) && stamp.gap != []
    requires Word(stamp.token) && stamp.token[0] != HASH && tokens.timestamp(stamp.token).Some?
    requires (end == [] || IsSpace(end[0])) && (SkipSpaces(end) == [] || SkipSpaces(end)[0] == HASH)
    ensures SampleTail(token + (stamp.gap + (stamp.token + end)), tokens, defaultMs, honor) == Ok(Sample(
      tokens.value(token).value, if honor then tokens.timestamp(stamp.token).value else defaultMs))
  {
    hide TokenRun, SkipSpaces, IsSpace, Blank;
    var rest := stamp.gap + (stamp.token + end);
    assert token + rest != [] by { assert (token + rest)[0] == token[0]; }
    StampStart(stamp, end);
    hide Word;
    WordCut(token, rest);
    SkipBlank(stamp.gap, stamp.token + end);
    WordCut(stamp.token, end);
  }

  lemma TailStart(sp: Spelling, tokens: Tokens)
    requires TailOk(sp, tokens)
    ensures PrintTail(sp) != [] && PrintTail(sp)[0] == sp.token[0] && !IsSpace(PrintTail(sp)[0])
  {
    hide PrintRemark, PrintStamp;
  }

  lemma StampStart(stamp: Stamp, end: Text)
    requires Blank(stamp.gap) && stamp.gap != [] && Word(stamp.token)
    ensures IsSpace((stamp.gap + (stamp.token + end))[0])
    ensures (stamp.token + end)[0] == stamp.token[0] && !IsSpace(stamp.token[0])
  {
  }

  lemma HeadRoundTrip(sp: Spelling, tokens: Tokens)
    requires SpellingOk(sp, tokens)
    ensures
      var s := Identity(sp) + (BeforeValue(sp) + PrintTail(sp));
      && s != [] && !IsSpace(s[0]) && s[0] != HASH
      && SeriesHead(s) == Ok(Head(
        Identity(sp),
        [Label(NAME_LABEL, sp.name)] + (if sp.braces.Some? then LabelsIn(sp.braces.value.pairs) else []),
        PrintTail(sp)))
  {
    hide SeriesHead, PrintSet, PairsOk, Blank, TailOk, PrintTail, MetricName;
    var tail := PrintTail(sp);
    TailStart(sp, tokens);
    NameStart(sp.name, if sp.braces.Some? then sp.gap + ([OPEN_BRACE] + PrintSet(sp.braces.value)) else [],
      BeforeValue(sp) + tail);
    if sp.braces.Some? {
      BracesHead(sp.name, sp.gap, sp.braces.value, sp.afterBraces + tail);
      SkipBlank(sp.afterBraces, tail);
    } else {
      PlainHead(sp.name, sp.gap, tail);
      assert [Label(NAME_LABEL, sp.name)] + [] == [Label(NAME_LABEL, sp.name)];
    }
  }

  lemma NameStart(name: Text, more: Text, rest: Text)
    requires MetricName(name)
    ensures
      var s := (name + more) + rest;
      s != [] && !IsSpace(s[0]) && s[0] != HASH
    ensures more == [] ==> (name + more) == name
  {
    assert ((name + more) + rest)[0] == name[0];
  }

  /** A spelled line parses to the series it means. */
  lemma LineRoundTrip(sp: Spelling, tokens: Tokens, defaultMs: i64, honor: bool)
    requires SpellingOk(sp, tokens)
    ensures Line(PrintLine(sp), tokens, defaultMs, honor) == Ok(Some(Meaning(sp, tokens, defaultMs, honor)))
  {
    hide SeriesHead, SampleTail, SkipSpaces, Identity, PrintTail, Blank, HeadOk, TailOk;
    var s := Identity(sp) + (BeforeValue(sp) + PrintTail(sp));
    HeadRoundTrip(sp, tokens);
    LeadIsBlank(sp, tokens);
    SkipBlank(sp.lead, s);
    TailRoundTrip(sp, tokens, defaultMs, honor);
  }

  lemma LeadIsBlank(sp: Spelling, tokens: Tokens)
    requires SpellingOk(sp, tokens)
    ensures Blank(sp.lead)
  {
  }

  /** A blank line, up to a remark, holds no series. */
  lemma RemarkRoundTrip(lead: Text, remark: Option<Text>, tokens: Tokens, defaultMs: i64, honor: bool)
    requires Blank(lead)
    ensures Line(PrintRemark(lead, remark), tokens, defaultMs, honor) == Ok(None)
  {
    RemarkRest(lead, remark);
  }

  // ----- bodies

  lemma {:induction false} LineEndOf(line: Text, rest: Text)
    requires LINE_FEED !in line
    ensures LineEnd(line + ([LINE_FEED] + rest)) == |line|
  {
    if line == [] {
      assert line + ([LINE_FEED] + rest) == [LINE_FEED] + rest;
    } else {
      assert (line + ([LINE_FEED] + rest))[1..] == line[1..] + ([LINE_FEED] + rest);
      LineEndOf(line[1..], rest);
    }
  }

  /** The first line of a body, stripped, and what follows it. */
  lemma FirstLine(content: Text, end: Text, rest: Text)
    requires LINE_FEED !in content && EndOk(end, rest == [])
    requires end == [] || end == [LINE_FEED] ==> EndsWithoutReturn(content)
    ensures
      var body := content + (end + rest);
      && (body != [] ==> WithoutReturn(body[..LineEnd(body)]) == content && AfterLine(body) == rest)
      && (body == [] ==> content == [] && rest == [])
  {
    hide LineEnd, AfterLine;
    var back: Text := if end == [CARRIAGE_RETURN, LINE_FEED] || end == [CARRIAGE_RETURN] then [CARRIAGE_RETURN] else [];
    var line := content + back;
    assert WithoutReturn(line) == content;
    if end == [LINE_FEED] || end == [CARRIAGE_RETURN, LINE_FEED] {
      assert end == back + [LINE_FEED];
      assert content + (end + rest) == line + ([LINE_FEED] + rest);
      EndedLine(line, rest);
    } else {
      assert end == back && rest == [] && content + (end + rest) == line;
      UnendedLine(line);
    }
  }

  lemma EndedLine(line: Text, rest: Text)
    requires LINE_FEED !in line
    ensures
      var body := line + ([LINE_FEED] + rest);
      body != [] && body[..LineEnd(body)] == line && AfterLine(body) == rest
  {
    hide LineEnd;
    LineEndOf(line, rest);
  }

  lemma UnendedLine(line: Text)
    requires LINE_FEED !in line
    ensures line[..LineEnd(line)] == line && AfterLine(line) == []
  {
    hide LineEnd;
    NoLineEnd(line);
  }

  lemma {:induction false} NoLineEnd(s: Text)
    requires LINE_FEED !in s
    ensures LineEnd(s) == |s|
  {
  }

  lemma ContentRoundTrip(line: BodyLine, tokens: Tokens, defaultMs: i64, honor: bool)
    requires LineOk(line, tokens)
    ensures Line(PrintContent(line.content), tokens, defaultMs, honor) == Ok(
      match line.content
      case Series(spelling) => Some(Meaning(spelling, tokens, defaultMs, honor))
      case Remark(_, _) => None)
  {
    hide Line, PrintLine, PrintRemark, SpellingOk;
    match line.content
    case Series(spelling) => LineRoundTrip(spelling, tokens, defaultMs, honor);
    case Remark(lead, remark) => RemarkRoundTrip(lead, remark, tokens, defaultMs, honor);
  }

  lemma BodyOkTail(lines: seq<BodyLine>, tokens: Tokens)
    requires BodyOk(lines, tokens) && lines != []
    ensures LineOk(lines[0], tokens) && EndOk(lines[0].end, |lines| == 1) && BodyOk(lines[1..], tokens)
  {
    hide LineOk;
  }

  lemma LineContent(line: BodyLine, tokens: Tokens)
    requires LineOk(line, tokens)
    ensures
      var content := PrintContent(line.content);
      && LINE_FEED !in content
      && (line.end == [] || line.end == [LINE_FEED] ==> EndsWithoutReturn(content))
  {
    hide PrintContent, SpellingOk;
  }

  lemma LastEnd(lines: seq<BodyLine>)
    requires lines != [] && EndOk(lines[0].end, |lines| == 1)
    ensures EndOk(lines[0].end, PrintBody(lines[1..]) == [])
  {
  }

  lemma SampleLinesPrint(line: BodyLine, tokens: Tokens)
    requires LineOk(line, tokens) && PrintContent(line.content) == []
    ensures line.content.Remark?
  {
    hide HeadOk, TailOk, PrintTail, Identity;
    if line.content.Series? {
      HeadRoundTrip(line.content.spelling, tokens);
    }
  }

  /** A spelled body parses to what its sample lines mean, in order; blank lines, comments and the
      ends of lines add nothing and break nothing. */
  lemma {:induction false} BodyRoundTrip(
    lines: seq<BodyLine>, lineNo: nat, tokens: Tokens, defaultMs: i64, honor: bool)
    requires BodyOk(lines, tokens)
    ensures Body(PrintBody(lines), lineNo, tokens, defaultMs, honor) == Ok(Meanings(lines, tokens, defaultMs, honor))
    decreases |lines|
  {
    hide Line, LineEnd, PrintContent, Meaning, WithoutReturn, AfterLine, BodyOk, LineOk, EndOk;
    if lines != [] {
      BodyOkTail(lines, tokens);
      var content, end, rest := PrintContent(lines[0].content), lines[0].end, PrintBody(lines[1..]);
      LineContent(lines[0], tokens);
      LastEnd(lines);
      FirstLine(content, end, rest);
      ContentRoundTrip(lines[0], tokens, defaultMs, honor);
      BodyRoundTrip(lines[1..], lineNo + 1, tokens, defaultMs, honor);
      if PrintBody(lines) == [] {
        SampleLinesPrint(lines[0], tokens);
        assert Body([], lineNo, tokens, defaultMs, honor) == Body([], lineNo + 1, tokens, defaultMs, honor) == Ok([]);
      }
    }
  }
}
