/**
 From scraped labels to the label set that is sent (`src/scrape.rs:899-965`): merge target
 labels, relabel, attach external labels, sort.
 */
module LabelPipeline {
  import opened Basics
  import opened Names
  import opened Model
  import opened LabelLists
  import opened Patterns
  import opened Relabel
  import opened RelabelSets
  import opened ExpositionText

  /** `exported_` */
  const EXPORTED_LABEL_PREFIX: Text := [101, 120, 112, 111, 114, 116, 101, 100, 95]

  /** What of a target and its job the pipeline reads. */
  datatype Target = Target(
    labels: seq<Label>,
    honorLabels: bool,
    relabelConfigs: seq<RelabelConfig>,
    externalLabels: seq<Label>)

  function Exported(name: Text): Text {
    EXPORTED_LABEL_PREFIX + name
  }

  /** One target label onto the scraped ones: on conflict it either yields (`honor`) or takes the
      name and moves the scraped value to `exported_<name>`. */
  function MergeLabel(labels: seq<Label>, t: Label, honor: bool): seq<Label> {
    if honor then AddIfAbsent(labels, t.name, t.value)
    else
      match Lookup(labels, t.name)
      case Some(scraped) => SetLabel(SetLabel(labels, t.name, t.value), Exported(t.name), scraped)
      case None => labels + [t]
  }

  function MergeTargets(labels: seq<Label>, targets: seq<Label>, honor: bool): seq<Label> {
    if targets == [] then labels
    else MergeLabel(MergeTargets(labels, targets[..|targets| - 1], honor), targets[|targets| - 1], honor)
  }

  function AddExternal(labels: seq<Label>, external: seq<Label>): seq<Label> {
    if external == [] then labels
    else
      var last := external[|external| - 1];
      AddIfAbsent(AddExternal(labels, external[..|external| - 1]), last.name, last.value)
  }

  /** `finalize_series_labels`: none when a rule drops the series. */
  function Finalize(raw: seq<Label>, target: Target, library: Library): Option<seq<Label>> {
    match Process(MergeTargets(raw, target.labels, target.honorLabels), target.relabelConfigs, library)
    case None => None
    case Some(labels) => Some(SortLabels(AddExternal(labels, target.externalLabels)))
  }

  // ----- the methods

  method MergeTargetLabels(scraped: seq<Label>, targets: seq<Label>, honor: bool) returns (labels: seq<Label>)
    ensures labels == MergeTargets(scraped, targets, honor)
  {
    hide SetLabel, Lookup;
    var working := new LabelSet(scraped);
    for i := 0 to |targets|
      invariant working.labels == MergeTargets(scraped, targets[..i], honor)
    {
      assert targets[..i + 1][..i] == targets[..i];
      var t := targets[i];
      var existing := Lookup(working.labels, t.name);
      if honor {
        working.labels := AddIfAbsent(working.labels, t.name, t.value);
      } else if existing.Some? {
        working.Set(t.name, t.value);
        working.Set(Exported(t.name), existing.value);
      } else {
        working.labels := working.labels + [t];
      }
    }
    assert targets[..|targets|] == targets;
    labels := working.labels;
  }

  method FinalizeSeriesLabels(raw: seq<Label>, target: Target, library: Library) returns (r: Option<seq<Label>>)
    requires Lawful(library.engine)
    ensures r == Finalize(raw, target, library)
  {
    hide Lawful, SortLabels, MergeLabel, Process, AddIfAbsent;
    var labels := MergeTargetLabels(raw, target.labels, target.honorLabels);
    var processed := ProcessLabels(labels, target.relabelConfigs, library);
    if processed.None? {
      return None;
    }
    labels := processed.value;
    var external := target.externalLabels;
    for i := 0 to |external|
      invariant labels == AddExternal(processed.value, external[..i])
    {
      assert external[..i + 1][..i] == external[..i];
      labels := AddIfAbsent(labels, external[i].name, external[i].value);
    }
    assert external[..|external|] == external;
    r := Some(SortLabels(labels));
  }

  // ----- the pipeline's label invariant

  lemma MergeLabelKeepsDistinct(labels: seq<Label>, t: Label, honor: bool)
    requires DistinctNames(labels)
    ensures DistinctNames(MergeLabel(labels, t, honor))
  {
    AddIfAbsentKeepsDistinct(labels, t.name, t.value);
    SetKeepsDistinct(labels, t.name, t.value);
    if !honor && Lookup(labels, t.name).Some? {
      SetKeepsDistinct(SetLabel(labels, t.name, t.value), Exported(t.name), Lookup(labels, t.name).value);
    }
  }

  lemma {:induction false} MergeKeepsDistinct(labels: seq<Label>, targets: seq<Label>, honor: bool)
    requires DistinctNames(labels)
    ensures DistinctNames(MergeTargets(labels, targets, honor))
  {
    if targets != [] {
      var init := targets[..|targets| - 1];
      MergeKeepsDistinct(labels, init, honor);
      MergeLabelKeepsDistinct(MergeTargets(labels, init, honor), targets[|targets| - 1], honor);
    }
  }

  lemma {:induction false} ExternalKeepsDistinct(labels: seq<Label>, external: seq<Label>)
    requires DistinctNames(labels)
    ensures DistinctNames(AddExternal(labels, external))
  {
    if external != [] {
      var init, last := external[..|external| - 1], external[|external| - 1];
      ExternalKeepsDistinct(labels, init);
      AddIfAbsentKeepsDistinct(AddExternal(labels, init), last.name, last.value);
    }
  }

  /** Whatever the rules, target labels, external labels and conflict setting: labels with
      distinct names come out strictly increasing by name, or not at all. */
  lemma FinalizeSorts(raw: seq<Label>, target: Target, library: Library)
    requires DistinctNames(raw)
    ensures Finalize(raw, target, library).Some? ==> StrictlySorted(Finalize(raw, target, library).value)
  {
    hide DistinctNames, StrictlySorted, MergeTargets, AddExternal, SortLabels, Process;
    var merged := MergeTargets(raw, target.labels, target.honorLabels);
    MergeKeepsDistinct(raw, target.labels, target.honorLabels);
    var processed := Process(merged, target.relabelConfigs, library);
    if processed.Some? {
      ProcessKeepsDistinct(merged, target.relabelConfigs, library);
      ExternalKeepsDistinct(processed.value, target.externalLabels);
      SortSorts(AddExternal(processed.value, target.externalLabels));
    }
  }

  // ----- what merging means

  /** `honor_labels: true`: the scraped label wins on conflict. */
  lemma {:induction false} HonorKeepsScraped(labels: seq<Label>, targets: seq<Label>, n: Text)
    ensures Lookup(MergeTargets(labels, targets, true), n) ==
      if Lookup(labels, n).Some? then Lookup(labels, n) else Lookup(targets, n)
  {
    if targets != [] {
      var init, last := targets[..|targets| - 1], targets[|targets| - 1];
      HonorKeepsScraped(labels, init, n);
      LookupAddIfAbsent(MergeTargets(labels, init, true), last.name, last.value, n);
      assert targets == init + [last];
      LookupAppend(init, [last], n);
      HonorKeepsScraped(labels, init, last.name);
      assert [last][1..] == [];
    }
  }

  lemma {:induction false} ExternalIsHonored(labels: seq<Label>, external: seq<Label>)
    ensures AddExternal(labels, external) == MergeTargets(labels, external, true)
  {
    if external != [] {
      ExternalIsHonored(labels, external[..|external| - 1]);
    }
  }

  /** What is sent, name by name: the relabelled value where there is one, else the external one. */
  lemma FinalizeMeaning(raw: seq<Label>, target: Target, library: Library, n: Text)
    requires DistinctNames(raw)
    ensures
      var relabelled := Process(MergeTargets(raw, target.labels, target.honorLabels), target.relabelConfigs, library);
      var sent := Finalize(raw, target, library);
      && (sent.Some? <==> relabelled.Some?)
      && (sent.Some? ==>
          Lookup(sent.value, n) ==
            if Lookup(relabelled.value, n).Some? then Lookup(relabelled.value, n)
            else Lookup(target.externalLabels, n))
  {
    hide Process, SortLabels, MergeTargets, Lookup, DistinctNames, AddExternal;
    var merged := MergeTargets(raw, target.labels, target.honorLabels);
    MergeKeepsDistinct(raw, target.labels, target.honorLabels);
    var relabelled := Process(merged, target.relabelConfigs, library);
    if relabelled.Some? {
      ProcessKeepsDistinct(merged, target.relabelConfigs, library);
      ExternalKeepsDistinct(relabelled.value, target.externalLabels);
      ExternalIsHonored(relabelled.value, target.externalLabels);
      HonorKeepsScraped(relabelled.value, target.externalLabels, n);
      LookupSorted(AddExternal(relabelled.value, target.externalLabels), n);
    }
  }

  lemma ExportedIs(name: Text)
    ensures Exported(name) == Bytes("exported_") + name
  {
  }

  lemma ExportedDiffers(name: Text)
    ensures Exported(name) != name
  {
    assert |Exported(name)| == |name| + 9;
  }

  lemma ExportedInjective(a: Text, b: Text)
    requires Exported(a) == Exported(b)
    ensures a == b
  {
    assert Exported(a)[9..] == a && Exported(b)[9..] == b;
  }

  lemma LookupMergeLabel(labels: seq<Label>, t: Label, n: Text)
    ensures Lookup(MergeLabel(labels, t, false), n) ==
      if n == t.name then Some(t.value)
      else if n == Exported(t.name) && Lookup(labels, t.name).Some? then Lookup(labels, t.name)
      else Lookup(labels, n)
  {
    ExportedDiffers(t.name);
    var scraped := Lookup(labels, t.name);
    if scraped.Some? {
      LookupSet(labels, t.name, t.value, n);
      LookupSet(SetLabel(labels, t.name, t.value), Exported(t.name), scraped.value, n);
    } else {
      LookupAppend(labels, [t], n);
      assert [t][1..] == [];
    }
  }

  /** The first of the first `m` target labels with this name. */
  function Owner(targets: seq<Label>, n: Text, m: nat): (i: Option<nat>)
    requires m <= |targets|
    ensures i.Some? ==> i.value < m && targets[i.value].name == n
    ensures i.None? ==> forall k | 0 <= k < m :: targets[k].name != n
  {
    if m == 0 then None
    else
      var before := Owner(targets, n, m - 1);
      if before.None? && targets[m - 1].name == n then Some(m - 1) else before
  }

  /** The first of the first `m` target labels whose conflict moves a value to this name. */
  function Mover(targets: seq<Label>, n: Text, m: nat): (i: Option<nat>)
    requires m <= |targets|
    ensures i.Some? ==> i.value < m && Exported(targets[i.value].name) == n
    ensures i.None? ==> forall k | 0 <= k < m :: Exported(targets[k].name) != n
  {
    if m == 0 then None
    else
      var before := Mover(targets, n, m - 1);
      if before.None? && Exported(targets[m - 1].name) == n then Some(m - 1) else before
  }

  /** What name `n` reads as after the first `m` target labels: the value an `exported_` move put
      there since its own target label, if any, was merged; else its target label's; else what
      was scraped. A moved value may itself have been moved before. */
  function Settled(labels: seq<Label>, targets: seq<Label>, n: Text, m: nat): Option<Text>
    requires m <= |targets|
    decreases m, 0
  {
    var owner, mover := Owner(targets, n, m), Mover(targets, n, m);
    if mover.Some? && Displaced(labels, targets, mover.value).Some? && (owner.None? || owner.value < mover.value) then
      Displaced(labels, targets, mover.value)
    else if owner.Some? then Some(targets[owner.value].value)
    else Lookup(labels, n)
  }

  /** The value target label `i` finds under its name, and moves. */
  function Displaced(labels: seq<Label>, targets: seq<Label>, i: nat): Option<Text>
    requires i < |targets|
    decreases i, 1
  {
    Settled(labels, targets, targets[i].name, i)
  }

  lemma NamesDiffer(labels: seq<Label>, i: nat, j: nat)
    requires DistinctNames(labels) && i < j < |labels|
    ensures labels[i].name != labels[j].name
  {
  }

  /** `honor_labels: false` name by name, for every list of target labels, chains of `exported_`
      names included. */
  lemma MergeMeaning(labels: seq<Label>, targets: seq<Label>, n: Text)
    requires DistinctNames(targets)
    ensures Lookup(MergeTargets(labels, targets, false), n) == Settled(labels, targets, n, |targets|)
  {
    assert targets[..|targets|] == targets;
    MergedUpTo(labels, targets, n, |targets|);
  }

  lemma {:induction false} MergedUpTo(labels: seq<Label>, targets: seq<Label>, n: Text, m: nat)
    requires DistinctNames(targets) && m <= |targets|
    ensures Lookup(MergeTargets(labels, targets[..m], false), n) == Settled(labels, targets, n, m)
    decreases m
  {
    hide Lookup, MergeLabel, DistinctNames, Exported;
    if m > 0 {
      var k := m - 1;
      var t := targets[k];
      assert targets[..m][..k] == targets[..k];
      MergedUpTo(labels, targets, n, k);
      MergedUpTo(labels, targets, t.name, k);
      LookupMergeLabel(MergeTargets(labels, targets[..k], false), t, n);
      ExportedDiffers(t.name);
      forall i | 0 <= i < k
        ensures targets[i].name != t.name && Exported(targets[i].name) != Exported(t.name)
      {
        NamesDiffer(targets, i, k);
        if Exported(targets[i].name) == Exported(t.name) {
          ExportedInjective(targets[i].name, t.name);
        }
      }
    }
  }

  lemma OwnerIs(targets: seq<Label>, i: nat, m: nat)
    requires DistinctNames(targets) && i < m <= |targets|
    ensures Owner(targets, targets[i].name, m) == Some(i)
  {
    hide DistinctNames;
    var owner := Owner(targets, targets[i].name, m);
    if owner.Some? && owner.value < i {
      NamesDiffer(targets, owner.value, i);
    } else if owner.Some? && owner.value > i {
      NamesDiffer(targets, i, owner.value);
    }
  }

  lemma MoverIs(targets: seq<Label>, j: nat, m: nat)
    requires DistinctNames(targets) && j < m <= |targets|
    ensures Mover(targets, Exported(targets[j].name), m) == Some(j)
  {
    hide DistinctNames, Exported;
    var mover := Mover(targets, Exported(targets[j].name), m);
    if mover.Some? && mover.value != j {
      ExportedInjective(targets[mover.value].name, targets[j].name);
      if mover.value < j {
        NamesDiffer(targets, mover.value, j);
      } else {
        NamesDiffer(targets, j, mover.value);
      }
    }
  }

  /** The value a target label displaces is found under `exported_<name>`, unless a later target
      label takes that name too: then that one displaces it further. */
  lemma ConflictMoves(labels: seq<Label>, targets: seq<Label>, i: nat)
    requires DistinctNames(targets) && i < |targets| && Displaced(labels, targets, i).Some?
    ensures Exported(targets[i].name) == Bytes("exported_") + targets[i].name
    ensures
      var n := Exported(targets[i].name);
      var owner := Owner(targets, n, |targets|);
      if owner.None? || owner.value < i then
        Lookup(MergeTargets(labels, targets, false), n) == Displaced(labels, targets, i)
      else
        owner.value != i && Displaced(labels, targets, owner.value) == Displaced(labels, targets, i)
  {
    hide Lookup, MergeTargets, DistinctNames, Exported;
    var n := Exported(targets[i].name);
    var owner := Owner(targets, n, |targets|);
    ExportedIs(targets[i].name);
    ExportedDiffers(targets[i].name);
    MergeMeaning(labels, targets, n);
    MoverIs(targets, i, |targets|);
    if owner.Some? && owner.value > i {
      MoverIs(targets, i, owner.value);
      NotOwnedBefore(targets, owner.value);
    }
  }

  lemma NotOwnedBefore(targets: seq<Label>, i: nat)
    requires DistinctNames(targets) && i < |targets|
    ensures Owner(targets, targets[i].name, i).None?
  {
    var owner := Owner(targets, targets[i].name, i);
    if owner.Some? {
      NamesDiffer(targets, owner.value, i);
    }
  }

  /** With target labels `x` and then `exported_x`, a scraped `x` is moved twice. */
  lemma ChainMovesTwice(labels: seq<Label>, x: Label, y: Label)
    requires y.name == Exported(x.name) && Lookup(labels, x.name).Some?
    ensures Lookup(MergeTargets(labels, [x, y], false), Exported(Exported(x.name))) == Lookup(labels, x.name)
  {
    hide Lookup, MergeLabel, Exported;
    ExportedDiffers(x.name);
    ExportedDiffers(y.name);
    assert [x, y][..1] == [x] && [x][..0] == [];
    assert MergeTargets(labels, [x], false) == MergeLabel(labels, x, false);
    LookupMergeLabel(labels, x, y.name);
    LookupMergeLabel(MergeTargets(labels, [x], false), y, Exported(y.name));
  }

  // ----- when the target label wins

  /** A target label whose name is the `exported_` form of a later target label. */
  ghost predicate Shadowed(targets: seq<Label>) {
    exists i, j | 0 <= i < j < |targets| :: targets[i].name == Exported(targets[j].name)
  }

  ghost predicate TargetsWin(targets: seq<Label>, merged: seq<Label>) {
    forall i | 0 <= i < |targets| :: Lookup(merged, targets[i].name) == Some(targets[i].value)
  }

  lemma UnshadowedTargetsWin(labels: seq<Label>, targets: seq<Label>)
    requires DistinctNames(targets) && !Shadowed(targets)
    ensures TargetsWin(targets, MergeTargets(labels, targets, false))
  {
    hide Lookup, MergeTargets, DistinctNames, Exported;
    forall i | 0 <= i < |targets|
      ensures Lookup(MergeTargets(labels, targets, false), targets[i].name) == Some(targets[i].value)
    {
      MergeMeaning(labels, targets, targets[i].name);
      OwnerIs(targets, i, |targets|);
    }
  }

  /** A metric name and label value that differs from `value`: `m` or `n`. */
  function OtherThan(value: Text): Text {
    if value == [109] then [110] else [109]
  }

  /** A scraped series that makes a shadowed target label lose: `__name__` first, then the label
      that the later target label moves onto the earlier one. */
  function Spoiler(targets: seq<Label>, i: nat, j: nat): (raw: seq<Label>)
    requires i < j < |targets|
    ensures DistinctNames(raw)
  {
    var name := Label(METRIC_NAME_LABEL, OtherThan(targets[i].value));
    if targets[j].name == METRIC_NAME_LABEL then [name]
    else [name, Label(targets[j].name, OtherThan(targets[i].value))]
  }

  lemma SpoilerLookup(targets: seq<Label>, i: nat, j: nat, n: Text)
    requires i < j < |targets|
    ensures Lookup(Spoiler(targets, i, j), n).Some? ==>
      Lookup(Spoiler(targets, i, j), n).value == OtherThan(targets[i].value)
    ensures Lookup(Spoiler(targets, i, j), targets[j].name).Some?
  {
    var raw := Spoiler(targets, i, j);
    if |raw| == 1 {
      assert raw[1..] == [];
    } else {
      var tail := raw[1..];
      assert tail[0] == raw[1] && tail[1..] == [];
      assert Lookup(tail, n) == if raw[1].name == n then Some(raw[1].value) else None;
    }
  }

  /** Whatever is displaced on a spoiler was scraped, and all it holds is one value. */
  lemma {:induction false} SpoilerDisplaced(targets: seq<Label>, i: nat, j: nat, k: nat)
    requires DistinctNames(targets) && i < j < |targets| && k < |targets|
    ensures Displaced(Spoiler(targets, i, j), targets, k).Some? ==>
      Displaced(Spoiler(targets, i, j), targets, k).value == OtherThan(targets[i].value)
    decreases k
  {
    hide Lookup, Spoiler, DistinctNames, Exported, OtherThan;
    var mover := Mover(targets, targets[k].name, k);
    NotOwnedBefore(targets, k);
    SpoilerLookup(targets, i, j, targets[k].name);
    if mover.Some? {
      SpoilerDisplaced(targets, i, j, mover.value);
    }
  }

  lemma SpoilerWins(targets: seq<Label>, i: nat, j: nat)
    requires DistinctNames(targets) && i < j < |targets| && targets[i].name == Exported(targets[j].name)
    ensures Lookup(MergeTargets(Spoiler(targets, i, j), targets, false), targets[i].name)
      == Some(OtherThan(targets[i].value)) != Some(targets[i].value)
    ensures !TargetsWin(targets, MergeTargets(Spoiler(targets, i, j), targets, false))
  {
    hide Lookup, MergeTargets, Spoiler, DistinctNames, Exported, OtherThan, Owner, Mover, Settled, Displaced;
    var raw := Spoiler(targets, i, j);
    MergeMeaning(raw, targets, targets[i].name);
    OwnerIs(targets, i, |targets|);
    MoverIs(targets, j, |targets|);
    SpoilerIsDisplaced(targets, i, j);
    SpoilerDisplaced(targets, i, j, j);
    MovedLast(raw, targets, targets[i].name, i, j);
    OtherDiffers(targets[i].value);
  }

  lemma OtherDiffers(value: Text)
    ensures OtherThan(value) != value
  {
  }

  /** The later target label finds something to move. */
  lemma SpoilerIsDisplaced(targets: seq<Label>, i: nat, j: nat)
    requires DistinctNames(targets) && i < j < |targets|
    ensures Displaced(Spoiler(targets, i, j), targets, j).Some?
  {
    hide Lookup, Spoiler, DistinctNames, Exported, Owner, Mover;
    NotOwnedBefore(targets, j);
    SpoilerLookup(targets, i, j, targets[j].name);
  }

  /** A value moved to a name after its own target label was merged is what it reads as. */
  lemma MovedLast(labels: seq<Label>, targets: seq<Label>, n: Text, i: nat, j: nat)
    requires i < j < |targets|
    requires Owner(targets, n, |targets|) == Some(i) && Mover(targets, n, |targets|) == Some(j)
    requires Displaced(labels, targets, j).Some?
    ensures Settled(labels, targets, n, |targets|) == Displaced(labels, targets, j)
  {
    hide Lookup, Exported, Owner, Mover, Displaced;
  }

  /** "The target label wins" on every scraped series exactly when no target label is called
      `exported_<name>` for a target label `<name>` that comes later. */
  lemma TargetsWinExactly(targets: seq<Label>)
    requires DistinctNames(targets)
    ensures !Shadowed(targets) <==>
      forall raw | DistinctNames(raw) :: TargetsWin(targets, MergeTargets(raw, targets, false))
  {
    hide MergeTargets, DistinctNames, Exported, TargetsWin, Spoiler;
    if Shadowed(targets) {
      var i, j :| 0 <= i < j < |targets| && targets[i].name == Exported(targets[j].name);
      SpoilerWins(targets, i, j);
    } else {
      forall raw | DistinctNames(raw)
        ensures TargetsWin(targets, MergeTargets(raw, targets, false))
      {
        UnshadowedTargetsWin(raw, targets);
      }
    }
  }
}
