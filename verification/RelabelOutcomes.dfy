/**
 What each relabeling action does to a series, rule by rule (`src/relabel.rs:189-407`): which
 series go on, and what every label reads as before the next rule.
 */
module RelabelOutcomes {
  import opened Basics
  import opened Names
  import opened Ascii
  import opened Model
  import opened LabelLists
  import opened Patterns
  import opened Relabel
  import opened Decimals

  // ----- the value a rule looks at

  /** `values` with `separator` between any two. */
  function Interleaved(values: seq<Text>, separator: Text): Text {
    if values == [] then []
    else if |values| == 1 then values[0]
    else values[0] + (separator + Interleaved(values[1..], separator))
  }

  lemma {:induction false} InterleavedSnoc(values: seq<Text>, separator: Text, last: Text)
    requires values != []
    ensures Interleaved(values + [last], separator) == Interleaved(values, separator) + separator + last
  {
    var all := values + [last];
    if |values| == 1 {
      assert all == [values[0], last] && all[1..] == [last];
      Regroup(values[0], separator, last);
    } else {
      assert all[1..] == values[1..] + [last] && all[0] == values[0];
      InterleavedSnoc(values[1..], separator, last);
      var inner := Interleaved(values[1..], separator);
      assert values[0] + (separator + (inner + separator + last)) == values[0] + (separator + inner) + separator + last;
    }
  }

  /** What the label `name` reads as; a missing label is the empty string. */
  function ValueOf(labels: seq<Label>, name: Text): Text {
    Lookup(labels, name).GetOr([])
  }

  function SourceValues(labels: seq<Label>, names: seq<Text>): (values: seq<Text>)
    ensures |values| == |names|
  {
    seq(|names|, i requires 0 <= i < |names| => ValueOf(labels, names[i]))
  }

  /** The source labels' values, the separator between them. */
  function SourceValue(labels: seq<Label>, config: RelabelConfig): Text {
    Interleaved(SourceValues(labels, config.sourceLabels), config.separator)
  }

  lemma {:induction false} JoinIs(labels: seq<Label>, names: seq<Text>, separator: Text)
    ensures Join(labels, names, separator) == Interleaved(SourceValues(labels, names), separator)
  {
    hide Lookup;
    if |names| > 1 {
      var init, last := names[..|names| - 1], names[|names| - 1];
      JoinIs(labels, init, separator);
      InterleavedSnoc(SourceValues(labels, init), separator, ValueOf(labels, last));
      assert SourceValues(labels, names) == SourceValues(labels, init) + [ValueOf(labels, last)];
    }
  }

  // ----- rule lists

  lemma FirstRule(labels: seq<Label>, config: RelabelConfig, rest: seq<RelabelConfig>, library: Library)
    ensures Process(labels, [config] + rest, library) ==
      match Apply(labels, config, library)
      case None => None
      case Some(next) => Process(next, rest, library)
  {
    hide Apply, Retain;
    assert ([config] + rest)[1..] == rest;
  }

  /** Without rules left, labels with empty values go and the others stay. */
  lemma ProcessEnd(labels: seq<Label>, library: Library)
    requires DistinctNames(labels)
    ensures Process(labels, [], library).Some?
    ensures
      var out := Process(labels, [], library).value;
      && DistinctNames(out)
      && forall n :: Lookup(out, n) == if ValueOf(labels, n) == [] then None else Lookup(labels, n)
  {
    hide Lookup, Retain, DistinctNames;
    var out := Process(labels, [], library).value;
    RetainKeepsDistinct(labels, (l: Label) => l.value != []);
    forall n: Text
      ensures Lookup(out, n) == if ValueOf(labels, n) == [] then None else Lookup(labels, n)
    {
      LookupNonEmpty(labels, n);
    }
  }

  lemma {:induction false} LookupNonEmpty(labels: seq<Label>, n: Text)
    requires DistinctNames(labels)
    ensures Lookup(Retain(labels, (l: Label) => l.value != []), n)
      == if ValueOf(labels, n) == [] then None else Lookup(labels, n)
  {
    if labels != [] {
      DistinctHead(labels);
      LookupNonEmpty(labels[1..], n);
      LookupSome(labels[1..], n);
      var out := Retain(labels, (l: Label) => l.value != []);
      if labels[0].value != [] {
        assert out[1..] == Retain(labels[1..], (l: Label) => l.value != []);
      } else {
        assert out == Retain(labels[1..], (l: Label) => l.value != []);
      }
    }
  }

  // ----- actions that decide about the series

  /** `keep`, `drop`, `keepequal` and `dropequal` leave the labels alone; the series goes on when the
      value matches, when it does not, when it equals the target label, and when it does not. */
  lemma FilterStep(labels: seq<Label>, config: RelabelConfig, rest: seq<RelabelConfig>, library: Library)
    requires config.action in {Keep, Drop, KeepEqual, DropEqual}
    ensures
      var value := SourceValue(labels, config);
      var passes :=
        match config.action
        case Keep => library.engine(config.regex, value).Some?
        case Drop => library.engine(config.regex, value).None?
        case KeepEqual => value == ValueOf(labels, config.targetLabel)
        case _ => value != ValueOf(labels, config.targetLabel);
      Process(labels, [config] + rest, library) == if passes then Process(labels, rest, library) else None
  {
    hide Join, Process, Lookup, Interleaved;
    FirstRule(labels, config, rest, library);
    JoinIs(labels, config.sourceLabels, config.separator);
  }

  /** `keep` and `drop` with a pattern that is a plain string. */
  lemma LiteralFilterStep(labels: seq<Label>, config: RelabelConfig, rest: seq<RelabelConfig>, library: Library)
    requires Lawful(library.engine) && Classify(config.regex) == LiteralKind && config.action in {Keep, Drop}
    ensures Process(labels, [config] + rest, library) ==
      if (SourceValue(labels, config) == config.regex) == (config.action == Keep) then Process(labels, rest, library)
      else None
  {
    hide Process, SourceValue, Classify, Matches;
    FilterStep(labels, config, rest, library);
    AnchoredMatchIsExact(config.regex, SourceValue(labels, config), library.engine);
  }

  // ----- actions that rewrite labels

  /** `next` is `labels` but for the label `name`, which reads as `value`. */
  ghost predicate Rewritten(labels: seq<Label>, next: seq<Label>, name: Text, value: Option<Text>) {
    && (DistinctNames(labels) ==> DistinctNames(next))
    && forall n :: Lookup(next, n) == if n == name then value else Lookup(labels, n)
  }

  lemma SetRewrites(labels: seq<Label>, name: Text, value: Text)
    ensures Rewritten(labels, SetLabel(labels, name, value), name, Some(value))
  {
    hide Lookup, SetLabel, DistinctNames;
    if DistinctNames(labels) {
      SetKeepsDistinct(labels, name, value);
    }
    forall n: Text
      ensures Lookup(SetLabel(labels, name, value), n) == if n == name then Some(value) else Lookup(labels, n)
    {
      LookupSet(labels, name, value, n);
    }
  }

  lemma RemoveRewrites(labels: seq<Label>, name: Text)
    ensures Rewritten(labels, RemoveLabel(labels, name), name, None)
  {
    hide Lookup, RemoveLabel, DistinctNames;
    if DistinctNames(labels) {
      RemoveKeepsDistinct(labels, name);
    }
    forall n: Text
      ensures Lookup(RemoveLabel(labels, name), n) == if n == name then None else Lookup(labels, n)
    {
      LookupRemove(labels, name, n);
    }
  }

  lemma LabelNameIs(name: Text)
    ensures IsValidLabelName(name) <==> LabelName(name)
  {
    assert forall i | 0 <= i < |name| :: name[i] in name;
  }

  /** `replace` sets the expanded target label to the expanded replacement, or removes it when that is
      empty; when nothing matches or the target is no label name, nothing changes. */
  lemma ReplaceStep(labels: seq<Label>, config: RelabelConfig, rest: seq<RelabelConfig>, library: Library)
    returns (next: seq<Label>)
    requires config.action == Replace
    ensures Process(labels, [config] + rest, library) == Process(next, rest, library)
    ensures
      var match' := library.engine(config.regex, SourceValue(labels, config));
      if match'.None? || !LabelName(Expand(config.targetLabel, match'.value)) then next == labels
      else
        var value := Expand(config.replacement, match'.value);
        Rewritten(labels, next, Expand(config.targetLabel, match'.value), if value == [] then None else Some(value))
  {
    hide Join, Process, Lookup, Interleaved, Expand, SetLabel, RemoveLabel, Rewritten, IsValidLabelName, LabelName;
    FirstRule(labels, config, rest, library);
    JoinIs(labels, config.sourceLabels, config.separator);
    next := ReplaceByCaptures(labels, config, library.engine);
    var match' := library.engine(config.regex, SourceValue(labels, config));
    if match'.Some? {
      var target, value := Expand(config.targetLabel, match'.value), Expand(config.replacement, match'.value);
      LabelNameIs(target);
      SetRewrites(labels, target, value);
      RemoveRewrites(labels, target);
    }
  }

  /** `hashmod` sets the target label to the hash modulo the modulus, in decimal without leading zeros. */
  lemma HashModStep(labels: seq<Label>, config: RelabelConfig, rest: seq<RelabelConfig>, library: Library)
    returns (next: seq<Label>, digits: Text)
    requires config.action == HashMod && config.modulus > 0
    ensures Process(labels, [config] + rest, library) == Process(next, rest, library)
    ensures Rewritten(labels, next, config.targetLabel, Some(digits))
    ensures IsDigits(digits) && DecimalValue(digits) == library.hash(SourceValue(labels, config)) % config.modulus
    ensures |digits| > 1 ==> digits[0] != '0' as int
  {
    hide Join, Process, Lookup, Interleaved, SetLabel, Rewritten, DecimalValue, Decimal;
    FirstRule(labels, config, rest, library);
    JoinIs(labels, config.sourceLabels, config.separator);
    var remainder := library.hash(SourceValue(labels, config)) % config.modulus;
    digits := Decimal(remainder);
    DecimalRoundTrip(remainder);
    NoLeadingZero(remainder);
    next := SetLabel(labels, config.targetLabel, digits);
    SetRewrites(labels, config.targetLabel, digits);
  }

  lemma {:induction false} NoLeadingZero(n: nat)
    ensures n > 0 ==> Decimal(n)[0] != DIGIT_ZERO
    ensures |Decimal(n)| > 1 ==> Decimal(n)[0] != DIGIT_ZERO
  {
    if n >= 10 {
      NoLeadingZero(n / 10);
    }
  }

  /** `lowercase` and `uppercase` set the target label to the mapped value. */
  lemma CaseStep(labels: seq<Label>, config: RelabelConfig, rest: seq<RelabelConfig>, library: Library)
    returns (next: seq<Label>)
    requires config.action in {Lowercase, Uppercase}
    ensures Process(labels, [config] + rest, library) == Process(next, rest, library)
    ensures
      var value := SourceValue(labels, config);
      Rewritten(labels, next, config.targetLabel,
        Some(if config.action == Lowercase then library.lower(value) else library.upper(value)))
  {
    hide Join, Process, Lookup, Interleaved, SetLabel, Rewritten;
    FirstRule(labels, config, rest, library);
    JoinIs(labels, config.sourceLabels, config.separator);
    var value := SourceValue(labels, config);
    var mapped := if config.action == Lowercase then library.lower(value) else library.upper(value);
    next := SetLabel(labels, config.targetLabel, mapped);
    SetRewrites(labels, config.targetLabel, mapped);
  }

  /** `labeldrop` removes the labels whose names match and `labelkeep` the others; what stays reads
      as before. */
  lemma NameStep(labels: seq<Label>, config: RelabelConfig, rest: seq<RelabelConfig>, library: Library)
    returns (next: seq<Label>)
    requires config.action in {LabelDrop, LabelKeep}
    ensures Process(labels, [config] + rest, library) == Process(next, rest, library)
    ensures DistinctNames(labels) ==> DistinctNames(next)
    ensures forall n ::
      Lookup(next, n) ==
        if library.engine(config.regex, n).Some? == (config.action == LabelKeep) then Lookup(labels, n) else None
  {
    hide Process, Lookup, Retain, DistinctNames;
    FirstRule(labels, config, rest, library);
    next := Apply(labels, config, library).value;
    if DistinctNames(labels) {
      ApplyKeepsDistinct(labels, config, library);
    }
    forall n: Text
      ensures Lookup(next, n) ==
        if library.engine(config.regex, n).Some? == (config.action == LabelKeep) then Lookup(labels, n) else None
    {
      if config.action == LabelKeep {
        LookupRetained(labels, (l: Label) => library.engine(config.regex, l.name).Some?,
          (name: Text) => library.engine(config.regex, name).Some?, n);
      } else {
        LookupRetained(labels, (l: Label) => library.engine(config.regex, l.name).None?,
          (name: Text) => library.engine(config.regex, name).None?, n);
      }
    }
  }

  lemma {:induction false} LookupRetained(labels: seq<Label>, keep: Label -> bool, keepName: Text -> bool, n: Text)
    requires forall l: Label :: keep(l) == keepName(l.name)
    ensures Lookup(Retain(labels, keep), n) == if keepName(n) then Lookup(labels, n) else None
  {
    if labels != [] {
      LookupRetained(labels[1..], keep, keepName, n);
      var rest, out := Retain(labels[1..], keep), Retain(labels, keep);
      assert keep(labels[0]) == keepName(labels[0].name);
      if keep(labels[0]) {
        assert out[1..] == rest;
      } else {
        assert out == rest;
      }
    }
  }

  // ----- `labelmap`

  /** The value of the last label whose matching name expands to `n`. */
  function LastMapped(labels: seq<Label>, config: RelabelConfig, engine: Engine, n: Text): Option<Text> {
    if labels == [] then None
    else
      var last := labels[|labels| - 1];
      match engine(config.regex, last.name)
      case Some(caps) =>
        if Expand(config.replacement, caps) == n then Some(last.value)
        else LastMapped(labels[..|labels| - 1], config, engine, n)
      case None => LastMapped(labels[..|labels| - 1], config, engine, n)
  }

  /** The last update of `n`. */
  function LastUpdate(updates: seq<Label>, n: Text): Option<Text> {
    if updates == [] then None
    else if updates[|updates| - 1].name == n then Some(updates[|updates| - 1].value)
    else LastUpdate(updates[..|updates| - 1], n)
  }

  lemma {:induction false} LastUpdateAppend(a: seq<Label>, b: seq<Label>, n: Text)
    ensures LastUpdate(a + b, n) == if LastUpdate(b, n).Some? then LastUpdate(b, n) else LastUpdate(a, n)
  {
    if b == [] {
      assert a + b == a;
    } else {
      assert (a + b)[..|a + b| - 1] == a + b[..|b| - 1];
      LastUpdateAppend(a, b[..|b| - 1], n);
    }
  }

  lemma {:induction false} LookupSetAll(labels: seq<Label>, updates: seq<Label>, n: Text)
    ensures Lookup(SetAll(labels, updates), n)
      == if LastUpdate(updates, n).Some? then LastUpdate(updates, n) else Lookup(labels, n)
    decreases |updates|
  {
    hide Lookup, SetLabel;
    if updates != [] {
      var first := updates[0];
      LookupSet(labels, first.name, first.value, n);
      LookupSetAll(SetLabel(labels, first.name, first.value), updates[1..], n);
      LastUpdateAppend([first], updates[1..], n);
      assert [first] + updates[1..] == updates && [first][..0] == [];
    }
  }

  lemma MapUpdatesAppend(a: seq<Label>, b: seq<Label>, config: RelabelConfig, engine: Engine)
    ensures MapUpdates(a + b, config, engine) == MapUpdates(a, config, engine) + MapUpdates(b, config, engine)
  {
    hide Expand;
    if a == [] {
      assert a + b == b;
    } else {
      MapUpdatesAppend(a[1..], b, config, engine);
      assert (a + b)[1..] == a[1..] + b && (a + b)[0] == a[0];
    }
  }

  lemma {:induction false} LastUpdateIsMapped(labels: seq<Label>, config: RelabelConfig, engine: Engine, n: Text)
    ensures LastUpdate(MapUpdates(labels, config, engine), n) == LastMapped(labels, config, engine, n)
  {
    hide Expand;
    if labels != [] {
      var init, last := labels[..|labels| - 1], labels[|labels| - 1];
      LastUpdateIsMapped(init, config, engine, n);
      assert init + [last] == labels;
      MapUpdatesAppend(init, [last], config, engine);
      LastUpdateAppend(MapUpdates(init, config, engine), MapUpdates([last], config, engine), n);
      OneMapUpdate(last, config, engine, n);
    }
  }

  lemma OneMapUpdate(pair: Label, config: RelabelConfig, engine: Engine, n: Text)
    ensures LastUpdate(MapUpdates([pair], config, engine), n) ==
      match engine(config.regex, pair.name)
      case Some(caps) => if Expand(config.replacement, caps) == n then Some(pair.value) else None
      case None => None
  {
    hide Expand;
    assert [pair][1..] == [];
    assert MapUpdates([pair], config, engine) ==
      match engine(config.regex, pair.name)
      case Some(caps) => [Label(Expand(config.replacement, caps), pair.value)]
      case None => [];
  }

  /** `labelmap` sets every name some matching label expands to, to the value of the last such label
      as it was before the rule, and leaves every other name alone. */
  lemma LabelMapStep(labels: seq<Label>, config: RelabelConfig, rest: seq<RelabelConfig>, library: Library)
    returns (next: seq<Label>)
    requires config.action == LabelMap
    ensures Process(labels, [config] + rest, library) == Process(next, rest, library)
    ensures DistinctNames(labels) ==> DistinctNames(next)
    ensures forall n ::
      Lookup(next, n) ==
        var mapped := LastMapped(labels, config, library.engine, n);
        if mapped.Some? then mapped else Lookup(labels, n)
  {
    hide Process, Lookup, SetAll, MapUpdates, LastMapped, LastUpdate, DistinctNames;
    FirstRule(labels, config, rest, library);
    var updates := MapUpdates(labels, config, library.engine);
    next := SetAll(labels, updates);
    if DistinctNames(labels) {
      SetAllKeepsDistinct(labels, updates);
    }
    forall n: Text
      ensures Lookup(next, n) ==
        var mapped := LastMapped(labels, config, library.engine, n);
        if mapped.Some? then mapped else Lookup(labels, n)
    {
      LookupSetAll(labels, updates, n);
      LastUpdateIsMapped(labels, config, library.engine, n);
    }
  }

  // ----- replacement templates

  /** A template in pieces: text, whose dollars are doubled, and groups with and without braces. */
  datatype Piece = Plain(text: Text) | Braced(group: Text) | Bare(group: Text)

  function DoubledDollars(text: Text): Text {
    if text == [] then []
    else (if text[0] == '$' as int then ['$' as int, '$' as int] else [text[0]]) + DoubledDollars(text[1..])
  }

  function PrintPiece(piece: Piece): Text {
    match piece
    case Plain(text) => DoubledDollars(text)
    case Braced(group) => ['$' as int, '{' as int] + (group + ['}' as int])
    case Bare(group) => ['$' as int] + group
  }

  function PrintPieces(pieces: seq<Piece>): Text {
    if pieces == [] then [] else PrintPiece(pieces[0]) + PrintPieces(pieces[1..])
  }

  /** A braced name has no closing brace in it; a bare one is as long as it can be. */
  predicate PiecesOk(pieces: seq<Piece>) {
    pieces == [] ||
      (&& PiecesOk(pieces[1..])
       && match pieces[0]
          case Plain(_) => true
          case Braced(group) => '}' as int !in group
          case Bare(group) =>
            && group != [] && (forall b | b in group :: NameByte(b))
            && (PrintPieces(pieces[1..]) == [] || !NameByte(PrintPieces(pieces[1..])[0])))
  }

  /** What a group stands for: by number when its name is one, else by name, and nothing when there is no
      such group or it took no part in the match. */
  function GroupMeaning(group: Text, caps: Captures): Text {
    var digits := if group != [] && group[0] == '+' as int then group[1..] else group;
    var number :=
      if IsDigits(digits) && digits != [] && DecimalValue(digits) < TWO_64 then Some(DecimalValue(digits))
      else if group in caps.names then Some(caps.names[group])
      else None;
    if number.Some? && number.value < |caps.groups| then caps.groups[number.value].GetOr([]) else []
  }

  function PiecesMeaning(pieces: seq<Piece>, caps: Captures): Text {
    if pieces == [] then []
    else
      (match pieces[0]
       case Plain(text) => text
       case Braced(group) => GroupMeaning(group, caps)
       case Bare(group) => GroupMeaning(group, caps)) + PiecesMeaning(pieces[1..], caps)
  }

  lemma GroupMeaningIs(group: Text, caps: Captures)
    ensures GroupText(group, caps) == GroupMeaning(group, caps)
  {
    hide DecimalValue;
  }

  lemma ExpandDollars(rest: Text, caps: Captures)
    ensures Expand([DOLLAR, DOLLAR] + rest, caps) == [DOLLAR] + Expand(rest, caps)
  {
    hide GroupReference, GroupText;
    var template := [DOLLAR, DOLLAR] + rest;
    assert template[0] == DOLLAR && template[1] == DOLLAR && template[2..] == rest;
  }

  lemma ExpandByte(b: byte, rest: Text, caps: Captures)
    requires b != DOLLAR
    ensures Expand([b] + rest, caps) == [b] + Expand(rest, caps)
  {
    hide GroupReference, GroupText;
    var template := [b] + rest;
    assert template[0] == b && template[1..] == rest;
  }

  lemma {:induction false} ExpandDoubled(text: Text, rest: Text, caps: Captures)
    ensures Expand(DoubledDollars(text) + rest, caps) == text + Expand(rest, caps)
  {
    hide Expand;
    if text == [] {
      assert DoubledDollars(text) + rest == rest && text + Expand(rest, caps) == Expand(rest, caps);
    } else {
      var tail := DoubledDollars(text[1..]);
      ExpandDoubled(text[1..], rest, caps);
      assert text == [text[0]] + text[1..];
      Regroup([text[0]], text[1..], Expand(rest, caps));
      if text[0] == DOLLAR {
        Regroup([DOLLAR, DOLLAR], tail, rest);
        ExpandDollars(tail + rest, caps);
      } else {
        Regroup([text[0]], tail, rest);
        ExpandByte(text[0], tail + rest, caps);
      }
    }
  }

  lemma {:induction false} FindCloseOf(group: Text, rest: Text)
    requires CLOSE_BRACE !in group
    ensures FindClose(group + ([CLOSE_BRACE] + rest)) == Some(|group|)
  {
    var s := group + ([CLOSE_BRACE] + rest);
    if group == [] {
      assert s[0] == CLOSE_BRACE;
    } else {
      assert s[0] == group[0] && s[1..] == group[1..] + ([CLOSE_BRACE] + rest);
      FindCloseOf(group[1..], rest);
    }
  }

  lemma {:induction false} GroupRunOf(group: Text, rest: Text)
    requires (forall b | b in group :: IsNameByte(b)) && (rest == [] || !IsNameByte(rest[0]))
    ensures GroupRun(group + rest) == |group|
  {
    if group == [] {
      assert group + rest == rest;
    } else {
      assert group[0] in group && forall b | b in group[1..] :: b in group;
      assert (group + rest)[0] == group[0] && (group + rest)[1..] == group[1..] + rest;
      GroupRunOf(group[1..], rest);
    }
  }

  lemma ExpandBraced(group: Text, rest: Text, caps: Captures)
    requires CLOSE_BRACE !in group
    ensures Expand(PrintPiece(Braced(group)) + rest, caps) == GroupText(group, caps) + Expand(rest, caps)
  {
    hide GroupText, FindClose;
    var template := PrintPiece(Braced(group)) + rest;
    var inner := group + ([CLOSE_BRACE] + rest);
    assert template == [DOLLAR, OPEN_BRACE] + inner;
    assert template[0] == DOLLAR && template[1] == OPEN_BRACE && template[2..] == inner;
    FindCloseOf(group, rest);
    assert template[2..2 + |group|] == group && template[3 + |group|..] == rest;
  }

  lemma ExpandBare(group: Text, rest: Text, caps: Captures)
    requires group != [] && (forall b | b in group :: IsNameByte(b)) && (rest == [] || !IsNameByte(rest[0]))
    ensures Expand(PrintPiece(Bare(group)) + rest, caps) == GroupText(group, caps) + Expand(rest, caps)
  {
    hide GroupText, GroupRun;
    var template := PrintPiece(Bare(group)) + rest;
    assert group[0] in group;
    assert template[0] == DOLLAR && template[1] == group[0] && template[1..] == group + rest;
    GroupRunOf(group, rest);
    assert template[1..1 + |group|] == group && template[1 + |group|..] == rest;
  }

  lemma NameByteIs(b: byte)
    ensures NameByte(b) <==> IsNameByte(b)
  {
  }

  /** Expanding a template puts every group's meaning in its place and undoubles the dollars. */
  lemma {:induction false} ExpandPieces(pieces: seq<Piece>, caps: Captures)
    requires PiecesOk(pieces)
    ensures Expand(PrintPieces(pieces), caps) == PiecesMeaning(pieces, caps)
  {
    hide Expand, GroupText, GroupMeaning, NameByte, IsNameByte;
    if pieces == [] {
      NothingToExpand(caps);
    } else {
      var rest := PrintPieces(pieces[1..]);
      ExpandPieces(pieces[1..], caps);
      forall b: byte
        ensures NameByte(b) <==> IsNameByte(b)
      {
        NameByteIs(b);
      }
      match pieces[0]
      case Plain(text) => ExpandDoubled(text, rest, caps);
      case Braced(group) =>
        GroupMeaningIs(group, caps);
        ExpandBraced(group, rest, caps);
      case Bare(group) =>
        GroupMeaningIs(group, caps);
        ExpandBare(group, rest, caps);
    }
  }

  lemma NothingToExpand(caps: Captures)
    ensures Expand([], caps) == []
  {
  }
}
