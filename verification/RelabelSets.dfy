/** Relabeling in place (`src/relabel.rs:189-407`): the working label set and its fast paths. */
module RelabelSets {
  import opened Basics
  import opened Ascii
  import opened Model
  import opened LabelLists
  import opened Patterns
  import opened Relabel
  import opened Decimals

  // ----- the fast paths of `replace` agree with the capture path

  /** The default regex matches everything without a line feed and captures all of it. */
  lemma CaptureAllLaw(engine: Engine, value: Text)
    requires Lawful(engine)
    ensures engine(CAPTURE_ALL, value) ==
      if LINE_FEED in value then None else Some(Captures([Some(value), Some(value)], map[]))
  {
    AnyMatches(value);
    assert Matches(Group(ANY), value) <==> Matches(ANY, value);
  }

  /** A literal regex matches itself only and captures nothing else. */
  lemma LiteralLaw(engine: Engine, pattern: Text, value: Text)
    requires Lawful(engine) && Classify(pattern) == LiteralKind
    ensures engine(pattern, value) == if value == pattern then Some(Captures([Some(value)], map[])) else None
  {
    CaptureAllIsGeneral();
    LiteralMatches(pattern, value);
  }

  /** The copy rule's replacement, when it is simple enough not to need captures. */
  function SimpleReplacement(replacement: Text, joined: Text): Option<Text> {
    if replacement == DOLLAR_ONE || replacement == DOLLAR_BRACED_ONE then Some(joined)
    else if DOLLAR !in replacement then Some(replacement)
    else None
  }

  lemma CopyRuleIsExact(labels: seq<Label>, config: RelabelConfig, engine: Engine)
    requires Lawful(engine) && config.regex == CAPTURE_ALL && DOLLAR !in config.targetLabel
    ensures
      var joined := Joined(labels, config);
      && (LINE_FEED in joined ==> ReplaceByCaptures(labels, config, engine) == labels)
      && (LINE_FEED !in joined && SimpleReplacement(config.replacement, joined).Some? ==>
          ReplaceByCaptures(labels, config, engine)
            == WriteReplacement(labels, config.targetLabel, SimpleReplacement(config.replacement, joined).value))
  {
    hide Expand, WriteReplacement, Lawful;
    var joined := Joined(labels, config);
    var caps := Captures([Some(joined), Some(joined)], map[]);
    CaptureAllLaw(engine, joined);
    ExpandPlain(config.targetLabel, caps);
    ExpandOne(caps, joined);
    if DOLLAR !in config.replacement {
      ExpandPlain(config.replacement, caps);
    }
  }

  lemma LiteralRuleIsExact(labels: seq<Label>, config: RelabelConfig, engine: Engine)
    requires Lawful(engine) && Classify(config.regex) == LiteralKind
    requires DOLLAR !in config.targetLabel && DOLLAR !in config.replacement
    ensures ReplaceByCaptures(labels, config, engine) ==
      if Joined(labels, config) == config.regex then
        WriteReplacement(labels, config.targetLabel, config.replacement)
      else labels
  {
    hide Expand, WriteReplacement, Lawful, Classify;
    var joined := Joined(labels, config);
    LiteralLaw(engine, config.regex, joined);
    ExpandPlain(config.targetLabel, Captures([Some(joined)], map[]));
    ExpandPlain(config.replacement, Captures([Some(joined)], map[]));
  }

  // ----- the working set

  /** `LabelSet`: a vector scanned linearly. */
  class LabelSet {
    var labels: seq<Label>

    constructor (initial: seq<Label>)
      ensures labels == initial
    {
      labels := initial;
    }

    method Set(name: Text, value: Text)
      modifies this
      ensures labels == SetLabel(old(labels), name, value)
    {
      for i := 0 to |labels|
        invariant labels == old(labels)
        invariant SetLabel(labels, name, value) == labels[..i] + SetLabel(labels[i..], name, value)
      {
        if labels[i].name == name {
          assert labels[i..][1..] == labels[i + 1..];
          labels := labels[i := Label(name, value)];
          return;
        }
        assert labels[i..][1..] == labels[i + 1..];
        assert labels[..i + 1] == labels[..i] + [labels[i]];
      }
      labels := labels + [Label(name, value)];
    }

    method Remove(name: Text)
      modifies this
      ensures labels == RemoveLabel(old(labels), name)
    {
      labels := RetainWhere(labels, (l: Label) => l.name != name);
      RemoveIsRetain(old(labels), name);
    }

    /** Join the values of `names` into a buffer. */
    method JoinValues(names: seq<Text>, separator: Text) returns (buf: Text)
      ensures buf == Join(labels, names, separator)
    {
      buf := [];
      for i := 0 to |names|
        invariant buf == Join(labels, names[..i], separator)
      {
        assert names[..i + 1][..i] == names[..i];
        if i > 0 {
          buf := buf + separator;
        }
        buf := buf + Get(labels, names[i]);
      }
      assert names[..|names|] == names;
    }

    /** The `replace` action: the copy rule and literal rules skip the engine. */
    method ApplyReplace(config: RelabelConfig, engine: Engine)
      requires Lawful(engine)
      modifies this
      ensures labels == ReplaceByCaptures(old(labels), config, engine)
    {
      hide Join, Expand, Lawful, SimpleReplacement, Classify, IsValidLabelName;
      var joined := JoinValues(config.sourceLabels, config.separator);
      if config.regex == CAPTURE_ALL && DOLLAR !in config.targetLabel {
        CopyRuleIsExact(labels, config, engine);
        if LINE_FEED in joined {
          return;
        }
        var value := SimpleReplacement(config.replacement, joined);
        if value.Some? {
          Write(config.targetLabel, value.value);
          return;
        }
      }
      if Classify(config.regex) == LiteralKind && DOLLAR !in config.targetLabel && DOLLAR !in config.replacement {
        LiteralRuleIsExact(labels, config, engine);
        if joined != config.regex {
          return;
        }
        Write(config.targetLabel, config.replacement);
        return;
      }
      var caps := engine(config.regex, joined);
      if caps.None? {
        return;
      }
      Write(Expand(config.targetLabel, caps.value), Expand(config.replacement, caps.value));
    }

    /** The common end of all three branches. */
    method Write(target: Text, value: Text)
      modifies this
      ensures labels == WriteReplacement(old(labels), target, value)
    {
      if !IsValidLabelName(target) {
        return;
      }
      if value == [] {
        Remove(target);
      } else {
        Set(target, value);
      }
    }

    /** Apply a single rule; false when it drops the series. */
    method ApplyRule(config: RelabelConfig, library: Library) returns (keep: bool)
      requires Lawful(library.engine)
      modifies this
      ensures keep <==> Apply(old(labels), config, library).Some?
      ensures keep ==> labels == Apply(old(labels), config, library).value
    {
      hide Join, ReplaceByCaptures, Lawful, AnchoredMatch, SetLabel, Retain, MapUpdates;
      var joined := JoinValues(config.sourceLabels, config.separator);
      AnchoredMatchIsExact(config.regex, joined, library.engine);
      keep := true;
      match config.action
      case Replace => ApplyReplace(config, library.engine);
      case Keep => keep := AnchoredMatch(config.regex, joined, library.engine);
      case Drop => keep := !AnchoredMatch(config.regex, joined, library.engine);
      case KeepEqual => keep := joined == Get(labels, config.targetLabel);
      case DropEqual => keep := joined != Get(labels, config.targetLabel);
      case HashMod =>
        Set(config.targetLabel, Decimal(if config.modulus == 0 then 0 else library.hash(joined) % config.modulus));
      case LabelMap =>
        var updates := MapUpdates(labels, config, library.engine);
        SetEach(updates);
      case LabelDrop => RetainNames(config.regex, library.engine, false);
      case LabelKeep => RetainNames(config.regex, library.engine, true);
      case Lowercase => Set(config.targetLabel, library.lower(joined));
      case Uppercase => Set(config.targetLabel, library.upper(joined));
    }

    method SetEach(updates: seq<Label>)
      modifies this
      ensures labels == SetAll(old(labels), updates)
    {
      hide SetLabel;
      assert updates[0..] == updates;
      for i := 0 to |updates|
        invariant SetAll(labels, updates[i..]) == SetAll(old(labels), updates)
      {
        assert updates[i..][1..] == updates[i + 1..];
        Set(updates[i].name, updates[i].value);
      }
    }

    /** Keep the labels whose name matches, or those whose name does not. */
    method RetainNames(pattern: Text, engine: Engine, matching: bool)
      requires Lawful(engine)
      modifies this
      ensures matching ==> labels == Retain(old(labels), (l: Label) => engine(pattern, l.name).Some?)
      ensures !matching ==> labels == Retain(old(labels), (l: Label) => engine(pattern, l.name).None?)
    {
      hide AnchoredMatch, Lawful;
      var keep := (l: Label) => AnchoredMatch(pattern, l.name, engine) == matching;
      labels := RetainWhere(labels, keep);
      forall l: Label
        ensures AnchoredMatch(pattern, l.name, engine) <==> engine(pattern, l.name).Some?
      {
        AnchoredMatchIsExact(pattern, l.name, engine);
      }
      if matching {
        RetainSame(old(labels), keep, (l: Label) => engine(pattern, l.name).Some?);
      } else {
        RetainSame(old(labels), keep, (l: Label) => engine(pattern, l.name).None?);
      }
    }
  }

  lemma {:induction false} RetainSame(labels: seq<Label>, a: Label -> bool, b: Label -> bool)
    requires forall l: Label :: a(l) == b(l)
    ensures Retain(labels, a) == Retain(labels, b)
  {
    if labels != [] {
      RetainSame(labels[1..], a, b);
    }
  }

  /** `Vec::retain`. */
  method RetainWhere(labels: seq<Label>, keep: Label -> bool) returns (kept: seq<Label>)
    ensures kept == Retain(labels, keep)
  {
    hide Retain;
    kept := [];
    assert labels[0..] == labels;
    for i := 0 to |labels|
      invariant kept + Retain(labels[i..], keep) == Retain(labels, keep)
    {
      RetainStep(labels, keep, i);
      if keep(labels[i]) {
        Regroup(kept, [labels[i]], Retain(labels[i + 1..], keep));
        kept := kept + [labels[i]];
      }
    }
    RetainStep(labels, keep, |labels|);
    assert kept + [] == kept;
  }

  lemma RetainStep(labels: seq<Label>, keep: Label -> bool, i: nat)
    requires i <= |labels|
    ensures i < |labels| && keep(labels[i]) ==>
      Retain(labels[i..], keep) == [labels[i]] + Retain(labels[i + 1..], keep)
    ensures i < |labels| && !keep(labels[i]) ==> Retain(labels[i..], keep) == Retain(labels[i + 1..], keep)
    ensures i == |labels| ==> Retain(labels[i..], keep) == []
  {
    if i < |labels| {
      assert labels[i..][1..] == labels[i + 1..];
      assert [] + Retain(labels[i + 1..], keep) == Retain(labels[i + 1..], keep);
    }
  }

  /** `process`: apply `configs` in order, then drop labels with empty values. */
  method ProcessLabels(labels: seq<Label>, configs: seq<RelabelConfig>, library: Library)
    returns (r: Option<seq<Label>>)
    requires Lawful(library.engine)
    ensures r == Process(labels, configs, library)
  {
    hide Apply, Lawful, Retain;
    var working := new LabelSet(labels);
    assert configs[0..] == configs;
    for i := 0 to |configs|
      invariant ApplyAll(working.labels, configs[i..], library) == ApplyAll(labels, configs, library)
    {
      assert configs[i..][1..] == configs[i + 1..];
      var keep := working.ApplyRule(configs[i], library);
      if !keep {
        return None;
      }
    }
    var kept := RetainWhere(working.labels, (l: Label) => l.value != []);
    r := Some(kept);
  }
}
