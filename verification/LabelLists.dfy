/**
 Label lists as finite maps: the small mutations shared by scraping and relabeling
 (`src/scrape.rs:929-965`, `src/relabel.rs:205-262`), and sorting by name.
 */
module LabelLists {
  import opened Basics
  import opened Model

  /** Value of the first label called `name`. */
  function Lookup(labels: seq<Label>, name: Text): Option<Text> {
    if labels == [] then None
    else if labels[0].name == name then Some(labels[0].value)
    else Lookup(labels[1..], name)
  }

  /** `get`: a missing label reads as the empty string. */
  function Get(labels: seq<Label>, name: Text): Text {
    match Lookup(labels, name)
    case Some(value) => value
    case None => []
  }

  /** `set`: overwrite the first label of that name, or append one. */
  function SetLabel(labels: seq<Label>, name: Text, value: Text): seq<Label> {
    if labels == [] then [Label(name, value)]
    else if labels[0].name == name then [Label(name, value)] + labels[1..]
    else [labels[0]] + SetLabel(labels[1..], name, value)
  }

  function RemoveLabel(labels: seq<Label>, name: Text): seq<Label> {
    if labels == [] then []
    else (if labels[0].name == name then [] else [labels[0]]) + RemoveLabel(labels[1..], name)
  }

  function AddIfAbsent(labels: seq<Label>, name: Text, value: Text): seq<Label> {
    if Lookup(labels, name).Some? then labels else labels + [Label(name, value)]
  }

  /** `retain`: the labels that satisfy `keep`, in order. */
  function Retain(labels: seq<Label>, keep: Label -> bool): seq<Label> {
    if labels == [] then []
    else (if keep(labels[0]) then [labels[0]] else []) + Retain(labels[1..], keep)
  }

  function NameSet(labels: seq<Label>): set<Text> {
    set i | 0 <= i < |labels| :: labels[i].name
  }

  predicate DistinctNames(labels: seq<Label>) {
    forall i, j | 0 <= i < j < |labels| :: labels[i].name != labels[j].name
  }

  lemma {:induction false} LookupSome(labels: seq<Label>, name: Text)
    ensures Lookup(labels, name).Some? <==> name in NameSet(labels)
  {
    if labels != [] {
      LookupSome(labels[1..], name);
      var tail := labels[1..];
      assert forall i | 0 <= i < |tail| :: tail[i].name == labels[i + 1].name;
      assert name in NameSet(tail) ==> name in NameSet(labels);
      if name in NameSet(labels) && labels[0].name != name {
        var i :| 0 <= i < |labels| && labels[i].name == name;
        assert tail[i - 1].name == name;
      }
      assert labels[0].name in NameSet(labels);
    }
  }

  lemma NameSetHead(labels: seq<Label>)
    requires labels != []
    ensures NameSet(labels) == {labels[0].name} + NameSet(labels[1..])
  {
    var tail := labels[1..];
    assert forall i | 0 <= i < |tail| :: tail[i].name == labels[i + 1].name;
    forall n | n in NameSet(labels)
      ensures n in {labels[0].name} + NameSet(tail)
    {
      var i :| 0 <= i < |labels| && labels[i].name == n;
      assert i > 0 ==> tail[i - 1].name == n;
    }
    forall n | n in NameSet(tail)
      ensures n in NameSet(labels)
    {
      var i :| 0 <= i < |tail| && tail[i].name == n;
      assert labels[i + 1].name == n;
    }
  }

  lemma DistinctHead(labels: seq<Label>)
    requires labels != []
    ensures DistinctNames(labels) <==> labels[0].name !in NameSet(labels[1..]) && DistinctNames(labels[1..])
  {
    var tail := labels[1..];
    if DistinctNames(labels) {
      assert forall i | 0 <= i < |tail| :: tail[i] == labels[i + 1];
    }
    if labels[0].name !in NameSet(tail) && DistinctNames(tail) {
      forall i, j | 0 <= i < j < |labels|
        ensures labels[i].name != labels[j].name
      {
        assert labels[j] == tail[j - 1];
        assert tail[j - 1].name in NameSet(tail);
        if i > 0 {
          assert labels[i] == tail[i - 1];
        }
      }
    }
  }

  // ----- the mutations as map updates

  lemma {:induction false} LookupSet(labels: seq<Label>, name: Text, value: Text, n: Text)
    ensures Lookup(SetLabel(labels, name, value), n) == if n == name then Some(value) else Lookup(labels, n)
  {
    var out := SetLabel(labels, name, value);
    if labels == [] {
      assert out[1..] == [];
    } else if labels[0].name == name {
      assert out[1..] == labels[1..];
    } else {
      assert out[1..] == SetLabel(labels[1..], name, value);
      LookupSet(labels[1..], name, value, n);
    }
  }

  lemma {:induction false} SetKeepsDistinct(labels: seq<Label>, name: Text, value: Text)
    requires DistinctNames(labels)
    ensures DistinctNames(SetLabel(labels, name, value))
    ensures NameSet(SetLabel(labels, name, value)) == NameSet(labels) + {name}
  {
    var out := SetLabel(labels, name, value);
    if labels == [] {
      NameSetHead(out);
      DistinctHead(out);
      assert out[1..] == [];
    } else {
      NameSetHead(labels);
      NameSetHead(out);
      DistinctHead(labels);
      DistinctHead(out);
      if labels[0].name == name {
        assert out[1..] == labels[1..];
      } else {
        assert out[1..] == SetLabel(labels[1..], name, value);
        SetKeepsDistinct(labels[1..], name, value);
      }
    }
  }

  lemma {:induction false} LookupRemove(labels: seq<Label>, name: Text, n: Text)
    ensures Lookup(RemoveLabel(labels, name), n) == if n == name then None else Lookup(labels, n)
  {
    if labels != [] {
      LookupRemove(labels[1..], name, n);
      var out := RemoveLabel(labels, name);
      if labels[0].name != name {
        assert out[1..] == RemoveLabel(labels[1..], name);
      } else {
        assert out == RemoveLabel(labels[1..], name);
      }
    }
  }

  lemma {:induction false} LookupAppend(a: seq<Label>, b: seq<Label>, n: Text)
    ensures Lookup(a + b, n) == if Lookup(a, n).Some? then Lookup(a, n) else Lookup(b, n)
  {
    if a == [] {
      assert a + b == b;
    } else {
      assert (a + b)[1..] == a[1..] + b;
      LookupAppend(a[1..], b, n);
    }
  }

  lemma LookupAddIfAbsent(labels: seq<Label>, name: Text, value: Text, n: Text)
    ensures Lookup(AddIfAbsent(labels, name, value), n) ==
      if n == name && Lookup(labels, name).None? then Some(value) else Lookup(labels, n)
  {
    LookupAppend(labels, [Label(name, value)], n);
    var one := [Label(name, value)];
    assert one[1..] == [];
  }

  lemma AddIfAbsentKeepsDistinct(labels: seq<Label>, name: Text, value: Text)
    requires DistinctNames(labels)
    ensures DistinctNames(AddIfAbsent(labels, name, value))
  {
    LookupSome(labels, name);
    if Lookup(labels, name).None? {
      forall i | 0 <= i < |labels|
        ensures labels[i].name != name
      {
        assert labels[i].name in NameSet(labels);
      }
    }
  }

  lemma {:induction false} RetainKeepsDistinct(labels: seq<Label>, keep: Label -> bool)
    requires DistinctNames(labels)
    ensures DistinctNames(Retain(labels, keep)) && NameSet(Retain(labels, keep)) <= NameSet(labels)
  {
    if labels != [] {
      NameSetHead(labels);
      DistinctHead(labels);
      RetainKeepsDistinct(labels[1..], keep);
      if keep(labels[0]) {
        var out := Retain(labels, keep);
        assert out[1..] == Retain(labels[1..], keep);
        NameSetHead(out);
        DistinctHead(out);
      }
    }
  }

  lemma {:induction false} RemoveIsRetain(labels: seq<Label>, name: Text)
    ensures RemoveLabel(labels, name) == Retain(labels, (l: Label) => l.name != name)
  {
    if labels != [] {
      RemoveIsRetain(labels[1..], name);
    }
  }

  lemma RemoveKeepsDistinct(labels: seq<Label>, name: Text)
    requires DistinctNames(labels)
    ensures DistinctNames(RemoveLabel(labels, name))
  {
    RemoveIsRetain(labels, name);
    RetainKeepsDistinct(labels, (l: Label) => l.name != name);
  }

  // ----- sorting by name

  /** Byte-wise lexicographic order, as `str` compares. */
  predicate NameLess(a: Text, b: Text) {
    if b == [] then false
    else if a == [] then true
    else a[0] < b[0] || (a[0] == b[0] && NameLess(a[1..], b[1..]))
  }

  lemma {:induction false} NameLessTotal(a: Text, b: Text)
    ensures NameLess(a, b) || NameLess(b, a) || a == b
    ensures !(NameLess(a, b) && NameLess(b, a)) && !NameLess(a, a)
  {
    if a != [] && b != [] {
      NameLessTotal(a[1..], b[1..]);
      assert a == [a[0]] + a[1..] && b == [b[0]] + b[1..];
    }
    if a != [] {
      NameLessIrreflexive(a);
    }
  }

  lemma {:induction false} NameLessIrreflexive(a: Text)
    ensures !NameLess(a, a)
  {
    if a != [] {
      NameLessIrreflexive(a[1..]);
    }
  }

  lemma {:induction false} NameLessTransitive(a: Text, b: Text, c: Text)
    requires NameLess(a, b) && NameLess(b, c)
    ensures NameLess(a, c)
  {
    if a != [] {
      if a[0] == b[0] == c[0] {
        NameLessTransitive(a[1..], b[1..], c[1..]);
      }
    }
  }

  /** `a` and `b` agree on `k` bytes, and then `a` ends, or has the smaller byte. */
  ghost predicate LessAt(a: Text, b: Text, k: nat) {
    k <= |a| && k < |b| && a[..k] == b[..k] && (k == |a| || a[k] < b[k])
  }

  /** The order is the lexicographic one on bytes. */
  lemma {:induction false} NameLessExactly(a: Text, b: Text)
    ensures NameLess(a, b) <==> exists k: nat :: LessAt(a, b, k)
  {
    if b == [] {
    } else if a == [] {
      assert LessAt(a, b, 0);
    } else {
      NameLessExactly(a[1..], b[1..]);
      if a[0] < b[0] {
        assert LessAt(a, b, 0);
      }
      if k: nat :| LessAt(a[1..], b[1..], k) {
        if a[0] == b[0] {
          assert a[..k + 1] == [a[0]] + a[1..][..k] && b[..k + 1] == [b[0]] + b[1..][..k];
          assert LessAt(a, b, k + 1);
        }
      }
      if k: nat :| LessAt(a, b, k) {
        if k > 0 {
          assert a[..k][0] == a[0] && b[..k][0] == b[0];
          assert a[1..][..k - 1] == a[..k][1..] && b[1..][..k - 1] == b[..k][1..];
          assert LessAt(a[1..], b[1..], k - 1);
        }
      }
    }
  }

  /** Labels strictly increasing by name, hence without duplicates: what remote-write demands. */
  predicate StrictlySorted(labels: seq<Label>) {
    forall i, j | 0 <= i < j < |labels| :: NameLess(labels[i].name, labels[j].name)
  }

  function InsertSorted(sorted: seq<Label>, l: Label): seq<Label> {
    if sorted == [] || !NameLess(sorted[0].name, l.name) then [l] + sorted
    else [sorted[0]] + InsertSorted(sorted[1..], l)
  }

  /** `sort_labels`; which algorithm sorts is immaterial by `SortedIsUnique`. */
  function SortLabels(labels: seq<Label>): seq<Label> {
    if labels == [] then [] else InsertSorted(SortLabels(labels[1..]), labels[0])
  }

  lemma {:induction false} InsertPermutes(sorted: seq<Label>, l: Label)
    ensures multiset(InsertSorted(sorted, l)) == multiset(sorted) + multiset{l}
  {
    if sorted != [] && NameLess(sorted[0].name, l.name) {
      InsertPermutes(sorted[1..], l);
      assert sorted == [sorted[0]] + sorted[1..];
    }
  }

  lemma {:induction false} SortPermutes(labels: seq<Label>)
    ensures multiset(SortLabels(labels)) == multiset(labels)
  {
    if labels != [] {
      SortPermutes(labels[1..]);
      InsertPermutes(SortLabels(labels[1..]), labels[0]);
      assert labels == [labels[0]] + labels[1..];
    }
  }

  lemma {:induction false} InsertKeepsSorted(sorted: seq<Label>, l: Label)
    requires StrictlySorted(sorted)
    requires forall i | 0 <= i < |sorted| :: sorted[i].name != l.name
    ensures StrictlySorted(InsertSorted(sorted, l))
  {
    hide NameLess;
    if sorted != [] {
      var head, tail := sorted[0], sorted[1..];
      NameLessTotal(head.name, l.name);
      if NameLess(head.name, l.name) {
        InsertKeepsSorted(tail, l);
        InsertPermutes(tail, l);
        var rest := InsertSorted(tail, l);
        forall j | 0 <= j < |rest|
          ensures NameLess(head.name, rest[j].name)
        {
          assert rest[j] in multiset(rest);
          assert rest[j] == l || rest[j] in tail;
        }
      } else {
        forall j | 0 <= j < |sorted|
          ensures NameLess(l.name, sorted[j].name)
        {
          if j > 0 {
            NameLessTransitive(l.name, head.name, sorted[j].name);
          }
        }
      }
    }
  }

  /** Sorting labels with distinct names gives strictly increasing names. */
  lemma {:induction false} SortSorts(labels: seq<Label>)
    requires DistinctNames(labels)
    ensures StrictlySorted(SortLabels(labels))
  {
    if labels != [] {
      DistinctHead(labels);
      SortSorts(labels[1..]);
      var rest := SortLabels(labels[1..]);
      SortPermutes(labels[1..]);
      forall i | 0 <= i < |rest|
        ensures rest[i].name != labels[0].name
      {
        assert rest[i] in multiset(labels[1..]);
        var k :| 0 <= k < |labels[1..]| && labels[1..][k] == rest[i];
        assert labels[1..][k].name in NameSet(labels[1..]);
      }
      InsertKeepsSorted(rest, labels[0]);
    }
  }

  /** Any two strictly sorted arrangements of the same labels are equal. */
  lemma {:induction false} SortedIsUnique(a: seq<Label>, b: seq<Label>)
    requires StrictlySorted(a) && StrictlySorted(b) && multiset(a) == multiset(b)
    ensures a == b
  {
    assert |multiset(a)| == |a| && |multiset(b)| == |b|;
    if a != [] {
      hide NameLess;
      SameHead(a, b);
      assert a == [a[0]] + a[1..] && b == [b[0]] + b[1..];
      WithoutHead(a);
      WithoutHead(b);
      StrictlySortedTail(a);
      StrictlySortedTail(b);
      SortedIsUnique(a[1..], b[1..]);
    }
  }

  lemma WithoutHead(labels: seq<Label>)
    requires labels != []
    ensures multiset(labels[1..]) == multiset(labels) - multiset{labels[0]}
  {
    assert labels == [labels[0]] + labels[1..];
  }

  lemma StrictlySortedTail(labels: seq<Label>)
    requires labels != [] && StrictlySorted(labels)
    ensures StrictlySorted(labels[1..])
  {
  }

  lemma SameHead(a: seq<Label>, b: seq<Label>)
    requires StrictlySorted(a) && StrictlySorted(b) && multiset(a) == multiset(b) && a != [] && b != []
    ensures a[0] == b[0]
  {
    hide NameLess;
    assert a[0] in multiset(b);
    assert b[0] in multiset(a);
    var i :| 0 <= i < |b| && b[i] == a[0];
    var j :| 0 <= j < |a| && a[j] == b[0];
    NameLessTotal(a[0].name, b[0].name);
  }

  lemma {:induction false} LookupIn(labels: seq<Label>, l: Label)
    requires DistinctNames(labels) && l in labels
    ensures Lookup(labels, l.name) == Some(l.value)
  {
    DistinctHead(labels);
    if labels[0] != l {
      assert labels == [labels[0]] + labels[1..];
      assert l in labels[1..];
      var i :| 0 <= i < |labels[1..]| && labels[1..][i] == l;
      assert labels[1..][i].name in NameSet(labels[1..]);
      LookupIn(labels[1..], l);
    }
  }

  lemma {:induction false} LookupFinds(labels: seq<Label>, n: Text)
    requires Lookup(labels, n).Some?
    ensures Label(n, Lookup(labels, n).value) in labels
  {
    if labels[0].name != n {
      LookupFinds(labels[1..], n);
      assert labels == [labels[0]] + labels[1..];
    }
  }

  lemma SortedAreDistinct(labels: seq<Label>)
    requires StrictlySorted(labels)
    ensures DistinctNames(labels)
  {
    forall i, j | 0 <= i < j < |labels|
      ensures labels[i].name != labels[j].name
    {
      NameLessIrreflexive(labels[i].name);
    }
  }

  /** Sorting changes no lookup. */
  lemma LookupSorted(labels: seq<Label>, n: Text)
    requires DistinctNames(labels)
    ensures Lookup(SortLabels(labels), n) == Lookup(labels, n)
  {
    var sorted := SortLabels(labels);
    SortSorts(labels);
    SortPermutes(labels);
    SortedAreDistinct(sorted);
    if Lookup(labels, n).Some? {
      LookupFinds(labels, n);
      assert Label(n, Lookup(labels, n).value) in multiset(sorted);
      LookupIn(sorted, Label(n, Lookup(labels, n).value));
    } else if Lookup(sorted, n).Some? {
      LookupFinds(sorted, n);
      assert Label(n, Lookup(sorted, n).value) in multiset(labels);
      LookupIn(labels, Label(n, Lookup(sorted, n).value));
    }
  }
}
