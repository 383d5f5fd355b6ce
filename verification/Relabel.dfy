/**
 Relabeling rules (`src/relabel.rs:17-57`, `src/relabel.rs:183-433`): what each action does
 to a label list, and the `replace` action's fast paths against its general path.
 */
module Relabel {
  import opened Basics
  import opened Ascii
  import opened Model
  import opened LabelLists
  import opened Patterns
  import opened Decimals

  datatype Action =
    | Replace | Keep | Drop | KeepEqual | DropEqual | HashMod | LabelMap | LabelDrop | LabelKeep
    | Lowercase | Uppercase

  datatype RelabelConfig = RelabelConfig(
    sourceLabels: seq<Text>,
    separator: Text,
    targetLabel: Text,
    regex: Text,
    modulus: u64,
    replacement: Text,
    action: Action)

  /** The library calls relabeling makes: the regex engine, an MD5-based 64-bit hash, and
      Unicode case mapping. */
  datatype Library = Library(engine: Engine, hash: Text -> u64, lower: Text -> Text, upper: Text -> Text)

  // ----- replacement templates

  predicate IsNameByte(b: byte) {
    IsDigit(b) || IsLetter(b) || b == UNDERSCORE
  }

  /** Length of the leading run of group-name bytes. */
  function GroupRun(s: Text): (n: nat)
    ensures n <= |s|
  {
    if s != [] && IsNameByte(s[0]) then 1 + GroupRun(s[1..]) else 0
  }

  function FindClose(s: Text): Option<nat> {
    if s == [] then None
    else if s[0] == CLOSE_BRACE then Some(0)
    else
      match FindClose(s[1..])
      case Some(n) => Some(n + 1)
      case None => None
  }

  lemma {:induction false} FindCloseInside(s: Text)
    ensures FindClose(s).Some? ==> FindClose(s).value < |s|
  {
    if s != [] && s[0] != CLOSE_BRACE {
      FindCloseInside(s[1..]);
    }
  }

  /** The group a template names right after a `$`, and the length of the reference. */
  function GroupReference(t: Text): (r: Option<(Text, nat)>)
    ensures r.Some? ==> 0 < r.value.1 <= |t|
  {
    if |t| <= 1 then None
    else if t[1] == OPEN_BRACE then
      FindCloseInside(t[2..]);
      match FindClose(t[2..])
      case None => None
      case Some(n) => Some((t[2..2 + n], 3 + n))
    else
      var n := GroupRun(t[1..]);
      if n == 0 then None else Some((t[1..1 + n], 1 + n))
  }

  /** A group name as a number, as `usize` parsing reads it. */
  function GroupNumber(name: Text): Option<nat> {
    var digits := if name != [] && name[0] == PLUS then name[1..] else name;
    if digits != [] && (forall b | b in digits :: IsDigit(b)) && DecimalValue(digits) < TWO_64 then
      Some(DecimalValue(digits))
    else None
  }

  function GroupText(name: Text, caps: Captures): Text {
    var number :=
      match GroupNumber(name)
      case Some(n) => Some(n)
      case None => if name in caps.names then Some(caps.names[name]) else None;
    if number.Some? && number.value < |caps.groups| && caps.groups[number.value].Some? then
      caps.groups[number.value].value
    else []
  }

  /** `Captures::expand`: `$$` is a dollar, `$name` and `${name}` a group, any other dollar itself. */
  function Expand(template: Text, caps: Captures): Text
    decreases |template|
  {
    if template == [] then []
    else if template[0] != DOLLAR then [template[0]] + Expand(template[1..], caps)
    else if |template| >= 2 && template[1] == DOLLAR then [DOLLAR] + Expand(template[2..], caps)
    else
      match GroupReference(template)
      case None => [DOLLAR] + Expand(template[1..], caps)
      case Some((name, length)) => GroupText(name, caps) + Expand(template[length..], caps)
  }

  lemma {:induction false} ExpandPlain(template: Text, caps: Captures)
    requires DOLLAR !in template
    ensures Expand(template, caps) == template
  {
    if template != [] {
      ExpandPlain(template[1..], caps);
      assert template == [template[0]] + template[1..];
    }
  }

  const DOLLAR_ONE: Text := [DOLLAR, DIGIT_ONE]
  const DOLLAR_BRACED_ONE: Text := [DOLLAR, OPEN_BRACE, DIGIT_ONE, CLOSE_BRACE]

  lemma GroupOne(caps: Captures, value: Text)
    requires |caps.groups| == 2 && caps.groups[1] == Some(value)
    ensures GroupText([DIGIT_ONE], caps) == value
  {
    var one: Text := [DIGIT_ONE];
    assert one[..0] == [];
    assert DecimalValue(one) == 1;
    assert GroupNumber(one) == Some(1);
  }

  /** `$1` and `${1}` are the first group. */
  lemma ExpandOne(caps: Captures, value: Text)
    requires |caps.groups| == 2 && caps.groups[1] == Some(value)
    ensures Expand(DOLLAR_ONE, caps) == value && Expand(DOLLAR_BRACED_ONE, caps) == value
  {
    hide GroupText;
    GroupOne(caps, value);
    assert DOLLAR_ONE[1..] == [DIGIT_ONE] && DOLLAR_ONE[2..] == [];
    assert GroupRun(DOLLAR_ONE[1..]) == 1;
    assert DOLLAR_ONE[1..2] == [DIGIT_ONE];
    assert value + [] == value;
    var rest: Text := [DIGIT_ONE, CLOSE_BRACE];
    assert DOLLAR_BRACED_ONE[2..] == rest && rest[1..] == [CLOSE_BRACE];
    assert FindClose([CLOSE_BRACE]) == Some(0);
    assert FindClose(rest) == Some(1);
    assert DOLLAR_BRACED_ONE[2..3] == [DIGIT_ONE] && DOLLAR_BRACED_ONE[4..] == [];
  }

  // ----- actions

  /** `[a-zA-Z_][a-zA-Z0-9_]*` */
  predicate IsValidLabelName(name: Text) {
    name != [] && !IsDigit(name[0]) && forall b | b in name :: IsNameByte(b)
  }

  /** The values of `names` joined by `separator`; a missing label is the empty string. */
  function Join(labels: seq<Label>, names: seq<Text>, separator: Text): Text {
    if names == [] then []
    else if |names| == 1 then Get(labels, names[0])
    else Join(labels, names[..|names| - 1], separator) + separator + Get(labels, names[|names| - 1])
  }

  function Joined(labels: seq<Label>, config: RelabelConfig): Text {
    Join(labels, config.sourceLabels, config.separator)
  }

  /** Write a replacement: an invalid name changes nothing, an empty value removes the label. */
  function WriteReplacement(labels: seq<Label>, target: Text, value: Text): seq<Label> {
    if !IsValidLabelName(target) then labels
    else if value == [] then RemoveLabel(labels, target)
    else SetLabel(labels, target, value)
  }

  /** `replace` by its capture path alone. */
  function ReplaceByCaptures(labels: seq<Label>, config: RelabelConfig, engine: Engine): seq<Label> {
    match engine(config.regex, Joined(labels, config))
    case None => labels
    case Some(caps) =>
      WriteReplacement(labels, Expand(config.targetLabel, caps), Expand(config.replacement, caps))
  }

  /** `labelmap`'s updates, collected before any is applied. */
  function MapUpdates(labels: seq<Label>, config: RelabelConfig, engine: Engine): seq<Label> {
    if labels == [] then []
    else
      (match engine(config.regex, labels[0].name)
       case Some(caps) => [Label(Expand(config.replacement, caps), labels[0].value)]
       case None => []) + MapUpdates(labels[1..], config, engine)
  }

  function SetAll(labels: seq<Label>, updates: seq<Label>): seq<Label>
    decreases |updates|
  {
    if updates == [] then labels
    else SetAll(SetLabel(labels, updates[0].name, updates[0].value), updates[1..])
  }

  /** One rule; none when it drops the series. A modulus of 0 never passes validation. */
  function Apply(labels: seq<Label>, config: RelabelConfig, library: Library): Option<seq<Label>> {
    var joined := Joined(labels, config);
    match config.action
    case Replace => Some(ReplaceByCaptures(labels, config, library.engine))
    case Keep => if library.engine(config.regex, joined).Some? then Some(labels) else None
    case Drop => if library.engine(config.regex, joined).Some? then None else Some(labels)
    case KeepEqual => if joined == Get(labels, config.targetLabel) then Some(labels) else None
    case DropEqual => if joined == Get(labels, config.targetLabel) then None else Some(labels)
    case HashMod =>
      Some(SetLabel(labels, config.targetLabel,
        Decimal(if config.modulus == 0 then 0 else library.hash(joined) % config.modulus)))
    case LabelMap => Some(SetAll(labels, MapUpdates(labels, config, library.engine)))
    case LabelDrop => Some(Retain(labels, (l: Label) => library.engine(config.regex, l.name).None?))
    case LabelKeep => Some(Retain(labels, (l: Label) => library.engine(config.regex, l.name).Some?))
    case Lowercase => Some(SetLabel(labels, config.targetLabel, library.lower(joined)))
    case Uppercase => Some(SetLabel(labels, config.targetLabel, library.upper(joined)))
  }

  function ApplyAll(labels: seq<Label>, configs: seq<RelabelConfig>, library: Library): Option<seq<Label>>
    decreases |configs|
  {
    if configs == [] then Some(labels)
    else
      match Apply(labels, configs[0], library)
      case None => None
      case Some(next) => ApplyAll(next, configs[1..], library)
  }

  /** `process`: all rules in order, then labels with empty values go. */
  function Process(labels: seq<Label>, configs: seq<RelabelConfig>, library: Library): Option<seq<Label>> {
    match ApplyAll(labels, configs, library)
    case None => None
    case Some(out) => Some(Retain(out, (l: Label) => l.value != []))
  }

  // ----- distinct names survive every action

  lemma {:induction false} SetAllKeepsDistinct(labels: seq<Label>, updates: seq<Label>)
    requires DistinctNames(labels)
    ensures DistinctNames(SetAll(labels, updates))
    decreases |updates|
  {
    if updates != [] {
      SetKeepsDistinct(labels, updates[0].name, updates[0].value);
      SetAllKeepsDistinct(SetLabel(labels, updates[0].name, updates[0].value), updates[1..]);
    }
  }

  lemma WriteKeepsDistinct(labels: seq<Label>, target: Text, value: Text)
    requires DistinctNames(labels)
    ensures DistinctNames(WriteReplacement(labels, target, value))
  {
    SetKeepsDistinct(labels, target, value);
    RemoveKeepsDistinct(labels, target);
  }

  lemma ApplyKeepsDistinct(labels: seq<Label>, config: RelabelConfig, library: Library)
    requires DistinctNames(labels) && Apply(labels, config, library).Some?
    ensures DistinctNames(Apply(labels, config, library).value)
  {
    hide DistinctNames, Joined, Expand, MapUpdates, Decimal, Get, SetLabel, Retain;
    var joined := Joined(labels, config);
    match config.action
    case Replace =>
      match library.engine(config.regex, joined) {
        case None =>
        case Some(caps) =>
          WriteKeepsDistinct(labels, Expand(config.targetLabel, caps), Expand(config.replacement, caps));
      }
    case HashMod =>
      SetKeepsDistinct(labels, config.targetLabel,
        Decimal(if config.modulus == 0 then 0 else library.hash(joined) % config.modulus));
    case LabelMap => SetAllKeepsDistinct(labels, MapUpdates(labels, config, library.engine));
    case LabelDrop => RetainKeepsDistinct(labels, (l: Label) => library.engine(config.regex, l.name).None?);
    case LabelKeep => RetainKeepsDistinct(labels, (l: Label) => library.engine(config.regex, l.name).Some?);
    case Lowercase => SetKeepsDistinct(labels, config.targetLabel, library.lower(joined));
    case Uppercase => SetKeepsDistinct(labels, config.targetLabel, library.upper(joined));
    case _ =>
  }

  lemma {:induction false} ApplyAllKeepsDistinct(labels: seq<Label>, configs: seq<RelabelConfig>, library: Library)
    requires DistinctNames(labels) && ApplyAll(labels, configs, library).Some?
    ensures DistinctNames(ApplyAll(labels, configs, library).value)
    decreases |configs|
  {
    hide DistinctNames, Apply;
    if configs != [] {
      ApplyKeepsDistinct(labels, configs[0], library);
      ApplyAllKeepsDistinct(Apply(labels, configs[0], library).value, configs[1..], library);
    }
  }

  lemma {:induction false} RetainHolds(labels: seq<Label>, keep: Label -> bool)
    ensures forall i | 0 <= i < |Retain(labels, keep)| :: keep(Retain(labels, keep)[i])
  {
    if labels != [] {
      RetainHolds(labels[1..], keep);
    }
  }

  /** Relabeling keeps names distinct and leaves no empty value. */
  lemma ProcessKeepsDistinct(labels: seq<Label>, configs: seq<RelabelConfig>, library: Library)
    requires DistinctNames(labels) && Process(labels, configs, library).Some?
    ensures DistinctNames(Process(labels, configs, library).value)
    ensures forall i | 0 <= i < |Process(labels, configs, library).value| ::
      Process(labels, configs, library).value[i].value != []
  {
    hide ApplyAll, DistinctNames, Retain;
    ApplyAllKeepsDistinct(labels, configs, library);
    var out := ApplyAll(labels, configs, library).value;
    RetainKeepsDistinct(out, (l: Label) => l.value != []);
    RetainHolds(out, (l: Label) => l.value != []);
  }
}
