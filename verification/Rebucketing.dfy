/**
 Merging buckets into a coarser exponential schema, as a function on bucket
 indices and absolute counts (`merge_buckets`, `src/protobuf.rs:675-734`).

 With growth factor `2^(2^-schema)` bucket `i` covers the values up to
 `2^(i * 2^-schema)`, so lowering the schema by `shift` makes the upper bound of
 coarse bucket `k` the upper bound of fine bucket `k * 2^shift`.
 */
module Rebucketing {
  import opened Basics
  import opened BucketLayout

  /** `((index - 1) >> shift) + 1`. */
  function Target(index: int, shift: nat): int {
    (index - 1) / Pow2(shift) + 1
  }

  /** Equal neighbouring targets collapse into one bucket. */
  function MergedIndices(indices: seq<int>, shift: nat): (out: seq<int>)
    ensures |out| <= |indices|
    ensures indices != [] ==> out != [] && out[|out| - 1] == Target(indices[|indices| - 1], shift)
  {
    if indices == [] then []
    else
      var last := |indices| - 1;
      var out, target := MergedIndices(indices[..last], shift), Target(indices[last], shift);
      if out != [] && out[|out| - 1] == target then out else out + [target]
  }

  /** The counts of the merged buckets; a collapsed bucket's count is `add`ed on. */
  function MergedCounts<T>(indices: seq<int>, counts: seq<T>, shift: nat, add: (T, T) -> T): (out: seq<T>)
    requires |indices| == |counts|
    ensures |out| == |MergedIndices(indices, shift)|
  {
    if indices == [] then []
    else
      var last := |indices| - 1;
      var merged := MergedIndices(indices[..last], shift);
      var out := MergedCounts(indices[..last], counts[..last], shift, add);
      if merged != [] && merged[|merged| - 1] == Target(indices[last], shift) then
        out[..|out| - 1] + [add(out[|out| - 1], counts[last])]
      else
        out + [counts[last]]
  }

  /** Total count at indices `<= bound`: the cumulative distribution at a bucket's upper bound. */
  function CumulativeCount(indices: seq<int>, counts: seq<int>, bound: int): int
    requires |indices| == |counts|
  {
    if indices == [] then 0
    else
      var last := |indices| - 1;
      CumulativeCount(indices[..last], counts[..last], bound) + (if indices[last] <= bound then counts[last] else 0)
  }

  function Sum(counts: seq<int>): int {
    if counts == [] then 0 else Sum(counts[..|counts| - 1]) + counts[|counts| - 1]
  }

  const Plus: (int, int) -> int := (x, y) => x + y

  ghost predicate Associative<T(!new)>(add: (T, T) -> T) {
    forall x, y, z :: add(add(x, y), z) == add(x, add(y, z))
  }

  // ----- the index map

  /** A fine bucket lies inside coarse bucket `k` or below exactly when its upper bound does. */
  lemma TargetBound(index: int, shift: nat, k: int)
    ensures Target(index, shift) <= k <==> index <= k * Pow2(shift)
  {
    FloorBelow(index - 1, Pow2(shift), k - 1);
  }

  lemma TargetMonotone(i: int, j: int, shift: nat)
    requires i <= j
    ensures Target(i, shift) <= Target(j, shift)
  {
    TargetBound(i, shift, Target(j, shift));
    TargetBound(j, shift, Target(j, shift));
  }

  /** Each fine bucket `(i-1, i]` lies inside its coarse bucket's fine range. */
  lemma FineInsideCoarse(index: int, shift: nat)
    ensures (Target(index, shift) - 1) * Pow2(shift) < index <= Target(index, shift) * Pow2(shift)
  {
    TargetBound(index, shift, Target(index, shift));
    TargetBound(index, shift, Target(index, shift) - 1);
  }

  lemma TargetCompose(index: int, a: nat, b: nat)
    ensures Target(Target(index, a), b) == Target(index, a + b)
  {
    Pow2Add(a, b);
    DivDiv(index - 1, Pow2(a), Pow2(b));
  }

  lemma TargetOfZeroShift(index: int)
    ensures Target(index, 0) == index
  {
  }

  /** Indices only move towards 1; from shift 1 on the worst distance is halved. */
  lemma TargetRange(index: int, shift: nat)
    requires InI32(index)
    ensures InI32(Target(index, shift))
    ensures shift >= 1 ==> -0x4000_0000 <= Target(index, shift) <= 0x4000_0000
  {
    var p := Pow2(shift);
    TargetBound(index, shift, if index >= 1 then index else 1);
    TargetBound(index, shift, -TWO_31 - 1);
    assert index >= 1 ==> index <= index * p by { if index >= 1 { MulMonotone(1, p, index); } }
    assert (-TWO_31 - 1) * p <= -TWO_31 - 1 by { MulMonotone(1, p, TWO_31 + 1); }
    if shift >= 1 {
      assert p >= 2;
      TargetBound(index, shift, 0x4000_0000);
      TargetBound(index, shift, -0x4000_0000 - 1);
      MulMonotone(2, p, 0x4000_0000 + 1);
    }
  }

  // ----- merged indices

  lemma {:induction false} MergedStrictlyIncreasing(indices: seq<int>, shift: nat)
    requires StrictlyIncreasing(indices)
    ensures StrictlyIncreasing(MergedIndices(indices, shift))
  {
    if |indices| > 1 {
      var last := |indices| - 1;
      MergedStrictlyIncreasing(indices[..last], shift);
      TargetMonotone(indices[last - 1], indices[last], shift);
    }
  }

  lemma {:induction false} MergedWithin(indices: seq<int>, shift: nat)
    requires Within(indices, -TWO_31, TWO_31 - 1)
    ensures Within(MergedIndices(indices, shift), -TWO_31, TWO_31 - 1)
    ensures shift >= 1 ==> Within(MergedIndices(indices, shift), -0x4000_0000, 0x4000_0000)
  {
    if indices != [] {
      var last := |indices| - 1;
      MergedWithin(indices[..last], shift);
      TargetRange(indices[last], shift);
    }
  }

  /** At shift 0 nothing merges. */
  lemma {:induction false} MergedAtZero(indices: seq<int>)
    requires StrictlyIncreasing(indices)
    ensures MergedIndices(indices, 0) == indices
  {
    hide Target;
    if indices != [] {
      var last := |indices| - 1;
      var init := indices[..last];
      assert StrictlyIncreasing(init);
      MergedAtZero(init);
      TargetOfZeroShift(indices[last]);
      assert indices == init + [indices[last]];
      assert init != [] ==> init[last - 1] < indices[last];
    }
  }

  lemma {:induction false} MergedPrefix(indices: seq<int>, n: nat, shift: nat)
    requires n <= |indices|
    ensures MergedIndices(indices[..n], shift) <= MergedIndices(indices, shift)
  {
    if n < |indices| {
      var init := indices[..|indices| - 1];
      MergedPrefix(init, n, shift);
      assert init[..n] == indices[..n];
    } else {
      assert indices[..n] == indices;
    }
  }

  /** Every strictly increasing layout inside `i32` has gaps that fit, once merged at all. */
  lemma MergedGapsFit(indices: seq<int>, shift: nat)
    requires shift >= 1
    requires StrictlyIncreasing(indices) && Within(indices, -TWO_31, TWO_31 - 1)
    ensures GapsFit(MergedIndices(indices, shift))
  {
    MergedStrictlyIncreasing(indices, shift);
    MergedWithin(indices, shift);
  }

  // ----- merging in steps

  lemma {:induction false} MergedIndicesCompose(indices: seq<int>, a: nat, b: nat)
    ensures MergedIndices(MergedIndices(indices, a), b) == MergedIndices(indices, a + b)
  {
    hide Target;
    if indices != [] {
      var last := |indices| - 1;
      var init, inner := indices[..last], MergedIndices(indices[..last], a);
      MergedIndicesCompose(init, a, b);
      var target := Target(indices[last], a);
      TargetCompose(indices[last], a, b);
      if inner != [] && inner[|inner| - 1] == target {
        assert MergedIndices(indices, a) == inner;
      } else {
        assert (inner + [target])[..|inner|] == inner;
      }
    }
  }

  /** The number of merged buckets never grows with the shift. */
  lemma BucketsShrink(indices: seq<int>, a: nat, b: nat)
    requires a <= b
    ensures |MergedIndices(indices, b)| <= |MergedIndices(indices, a)|
  {
    MergedIndicesCompose(indices, a, b - a);
  }

  /** `counts` with `extra` added onto its last element. */
  function AddedToLast<T>(counts: seq<T>, extra: T, add: (T, T) -> T): (r: seq<T>)
    requires counts != []
    ensures |r| == |counts| && r[..|r| - 1] == counts[..|counts| - 1]
    ensures r[|r| - 1] == add(counts[|counts| - 1], extra)
  {
    counts[..|counts| - 1] + [add(counts[|counts| - 1], extra)]
  }

  predicate Collapses(indices: seq<int>, next: int, shift: nat) {
    var merged := MergedIndices(indices, shift);
    merged != [] && merged[|merged| - 1] == Target(next, shift)
  }

  lemma MergeSnoc<T>(indices: seq<int>, counts: seq<T>, next: int, count: T, shift: nat, add: (T, T) -> T)
    requires |indices| == |counts|
    ensures MergedIndices(indices + [next], shift) ==
      if Collapses(indices, next, shift) then MergedIndices(indices, shift)
      else MergedIndices(indices, shift) + [Target(next, shift)]
    ensures MergedCounts(indices + [next], counts + [count], shift, add) ==
      var out := MergedCounts(indices, counts, shift, add);
      if Collapses(indices, next, shift) then AddedToLast(out, count, add) else out + [count]
  {
    hide Target;
    var all, allCounts := indices + [next], counts + [count];
    assert all[..|indices|] == indices && all[|indices|] == next;
    assert allCounts[..|indices|] == counts && allCounts[|indices|] == count;
  }

  lemma AssociativeAt<T(!new)>(add: (T, T) -> T, x: T, y: T, z: T)
    requires Associative(add)
    ensures add(add(x, y), z) == add(x, add(y, z))
  {
  }

  /** Adding to the last fine count adds to the last coarse count. */
  lemma AddToLast<T(!new)>(indices: seq<int>, counts: seq<T>, extra: T, shift: nat, add: (T, T) -> T)
    requires |indices| == |counts| > 0
    requires Associative(add)
    ensures
      MergedCounts(indices, AddedToLast(counts, extra, add), shift, add)
        == AddedToLast(MergedCounts(indices, counts, shift, add), extra, add)
  {
    hide Target, Associative;
    var last := |indices| - 1;
    var grown := AddedToLast(counts, extra, add);
    var init := MergedCounts(indices[..last], counts[..last], shift, add);
    assert grown[..last] == counts[..last];
    if Collapses(indices[..last], indices[last], shift) {
      AssociativeAt(add, init[|init| - 1], counts[last], extra);
    }
  }

  /** Merging in two steps is merging once, for any associative count type. */
  lemma {:induction false} MergedCountsCompose<T(!new)>(
    indices: seq<int>, counts: seq<T>, a: nat, b: nat, add: (T, T) -> T)
    requires |indices| == |counts|
    requires Associative(add)
    ensures
      MergedCounts(MergedIndices(indices, a), MergedCounts(indices, counts, a, add), b, add)
        == MergedCounts(indices, counts, a + b, add)
  {
    if indices != [] {
      var last := |indices| - 1;
      assert indices == indices[..last] + [indices[last]];
      assert counts == counts[..last] + [counts[last]];
      MergedCountsCompose(indices[..last], counts[..last], a, b, add);
      MergedCountsComposeStep(indices[..last], counts[..last], indices[last], counts[last], a, b, add);
    }
  }

  lemma MergedCountsComposeStep<T(!new)>(
    indices: seq<int>, counts: seq<T>, next: int, count: T, a: nat, b: nat, add: (T, T) -> T)
    requires |indices| == |counts|
    requires Associative(add)
    requires
      MergedCounts(MergedIndices(indices, a), MergedCounts(indices, counts, a, add), b, add)
        == MergedCounts(indices, counts, a + b, add)
    ensures
      MergedCounts(MergedIndices(indices + [next], a), MergedCounts(indices + [next], counts + [count], a, add), b, add)
        == MergedCounts(indices + [next], counts + [count], a + b, add)
  {
    var inner, innerCounts := MergedIndices(indices, a), MergedCounts(indices, counts, a, add);
    MergeSnoc(indices, counts, next, count, a, add);
    MergeSnoc(indices, counts, next, count, a + b, add);
    MergedIndicesCompose(indices, a, b);
    TargetCompose(next, a, b);
    if Collapses(indices, next, a) {
      AddToLast(inner, innerCounts, count, b, add);
    } else {
      MergeSnoc(inner, innerCounts, Target(next, a), count, b, add);
    }
  }

  // ----- meaning

  lemma CumulativeSnoc(indices: seq<int>, counts: seq<int>, next: int, count: int, bound: int)
    requires |indices| == |counts|
    ensures CumulativeCount(indices + [next], counts + [count], bound)
      == CumulativeCount(indices, counts, bound) + (if next <= bound then count else 0)
  {
    assert (indices + [next])[..|indices|] == indices;
    assert (counts + [count])[..|indices|] == counts;
  }

  lemma CumulativeAddedToLast(indices: seq<int>, counts: seq<int>, extra: int, bound: int)
    requires |indices| == |counts| > 0
    ensures CumulativeCount(indices, AddedToLast(counts, extra, Plus), bound)
      == CumulativeCount(indices, counts, bound) + (if indices[|indices| - 1] <= bound then extra else 0)
  {
  }

  /** The main theorem: merging keeps the cumulative distribution at every coarse bound. */
  lemma {:induction false} MergePreservesMeaning(indices: seq<int>, counts: seq<int>, shift: nat, k: int)
    requires |indices| == |counts|
    ensures
      CumulativeCount(MergedIndices(indices, shift), MergedCounts(indices, counts, shift, Plus), k)
        == CumulativeCount(indices, counts, k * Pow2(shift))
  {
    hide MergedIndices, MergedCounts, Target, AddedToLast;
    if indices != [] {
      var last := |indices| - 1;
      var init, initCounts, next, count := indices[..last], counts[..last], indices[last], counts[last];
      assert indices == init + [next] && counts == initCounts + [count];
      MergePreservesMeaning(init, initCounts, shift, k);
      TargetBound(next, shift, k);
      CumulativeSnoc(init, initCounts, next, count, k * Pow2(shift));
      MergeSnoc(init, initCounts, next, count, shift, Plus);
      var merged, out := MergedIndices(init, shift), MergedCounts(init, initCounts, shift, Plus);
      if Collapses(init, next, shift) {
        CumulativeAddedToLast(merged, out, count, k);
      } else {
        CumulativeSnoc(merged, out, Target(next, shift), count, k);
      }
    }
  }

  lemma {:induction false} MergePreservesTotal(indices: seq<int>, counts: seq<int>, shift: nat)
    requires |indices| == |counts|
    ensures Sum(MergedCounts(indices, counts, shift, Plus)) == Sum(counts)
  {
    hide MergedIndices, MergedCounts, Target, AddedToLast;
    if indices != [] {
      var last := |indices| - 1;
      var init, initCounts, next, count := indices[..last], counts[..last], indices[last], counts[last];
      assert indices == init + [next] && counts == initCounts + [count];
      MergePreservesTotal(init, initCounts, shift);
      MergeSnoc(init, initCounts, next, count, shift, Plus);
      var out := MergedCounts(init, initCounts, shift, Plus);
      SumSnoc(initCounts, count);
      SumSnoc(out, count);
      if Collapses(init, next, shift) {
        SumAddedToLast(out, count);
      }
    }
  }

  lemma SumSnoc(counts: seq<int>, count: int)
    ensures Sum(counts + [count]) == Sum(counts) + count
  {
    assert (counts + [count])[..|counts|] == counts;
  }

  lemma SumAddedToLast(counts: seq<int>, extra: int)
    requires counts != []
    ensures Sum(AddedToLast(counts, extra, Plus)) == Sum(counts) + extra
  {
  }

  // ----- machine integers

  const WrapPlus: (i64, i64) -> i64 := (x, y) => WrapAdd(x, y)

  lemma WrapPlusAssociative()
    ensures Associative(WrapPlus)
  {
    forall x: i64, y: i64, z: i64
      ensures WrapPlus(WrapPlus(x, y), z) == WrapPlus(x, WrapPlus(y, z))
    {
      WrapAddAssociative(x, y, z);
    }
  }

  function Wrapped(counts: seq<int>): (r: seq<i64>)
    ensures |r| == |counts|
    ensures forall i | 0 <= i < |r| :: r[i] == Wrap(counts[i])
  {
    seq(|counts|, i requires 0 <= i < |counts| => Wrap(counts[i]))
  }

  /** Whatever overflows on the way, a merged machine count is the true merged count modulo 2^64. */
  lemma {:induction false} MergedWraps(indices: seq<int>, counts: seq<i64>, shift: nat)
    requires |indices| == |counts|
    ensures MergedCounts<i64>(indices, counts, shift, WrapPlus)
      == Wrapped(MergedCounts<int>(indices, counts, shift, Plus))
  {
    if indices != [] {
      var last := |indices| - 1;
      var init, initCounts, next, count := indices[..last], counts[..last], indices[last], counts[last];
      assert indices == init + [next] && counts == initCounts + [count];
      MergedWraps(init, initCounts, shift);
      MergedWrapsStep(init, initCounts, next, count, shift);
    }
  }

  lemma MergedWrapsStep(indices: seq<int>, counts: seq<i64>, next: int, count: i64, shift: nat)
    requires |indices| == |counts|
    requires MergedCounts<i64>(indices, counts, shift, WrapPlus)
      == Wrapped(MergedCounts<int>(indices, counts, shift, Plus))
    ensures MergedCounts<i64>(indices + [next], counts + [count], shift, WrapPlus)
      == Wrapped(MergedCounts<int>(indices + [next], counts + [count], shift, Plus))
  {
    var wrapped := MergedCounts<i64>(indices, counts, shift, WrapPlus);
    var out := MergedCounts<int>(indices, counts, shift, Plus);
    var wrapped' := MergedCounts<i64>(indices + [next], counts + [count], shift, WrapPlus);
    var out' := MergedCounts<int>(indices + [next], counts + [count], shift, Plus);
    if Collapses(indices, next, shift) {
      assert wrapped' == AddedToLast<i64>(wrapped, count, WrapPlus) by {
        MergeSnoc<i64>(indices, counts, next, count, shift, WrapPlus);
      }
      assert out' == AddedToLast<int>(out, count, Plus) by {
        MergeSnoc<int>(indices, counts, next, count, shift, Plus);
      }
      WrappedAddedToLast(out, count);
    } else {
      assert wrapped' == wrapped + [count] by {
        MergeSnoc<i64>(indices, counts, next, count, shift, WrapPlus);
      }
      assert out' == out + [count] by {
        MergeSnoc<int>(indices, counts, next, count, shift, Plus);
      }
      WrappedSnoc(out, count);
    }
  }

  lemma WrappedAddedToLast(out: seq<int>, count: i64)
    requires out != []
    ensures AddedToLast<i64>(Wrapped(out), count, WrapPlus) == Wrapped(AddedToLast<int>(out, count, Plus))
  {
    WrapOfWrap(out[|out| - 1], count);
  }

  lemma WrappedSnoc(out: seq<int>, count: i64)
    ensures Wrapped(out) + [count] == Wrapped(out + [count])
  {
  }

  ghost predicate AllBetween(counts: seq<int>, low: int, high: int) {
    forall j | 0 <= j < |counts| :: low <= counts[j] <= high
  }

  ghost predicate AllAtLeastZero(counts: seq<int>) {
    forall i | 0 <= i < |counts| :: counts[i] >= 0
  }

  lemma AtLeastZeroInit(counts: seq<int>)
    requires AllAtLeastZero(counts) && counts != []
    ensures AllAtLeastZero(counts[..|counts| - 1]) && counts[|counts| - 1] >= 0
  {
  }

  lemma NothingBetween(shift: nat)
    ensures AllBetween(MergedCounts([], [], shift, Plus), 0, Sum([])) && Sum([]) == 0
  {
  }

  lemma BetweenSnoc(counts: seq<int>, count: int, high: int)
    requires AllBetween(counts, 0, high) && count >= 0 && high >= 0
    ensures AllBetween(counts + [count], 0, high + count)
    ensures counts != [] ==> AllBetween(AddedToLast(counts, count, Plus), 0, high + count)
  {
    if counts != [] {
      var last := |counts| - 1;
      var grown := AddedToLast(counts, count, Plus);
      assert grown[last] == counts[last] + count;
      assert forall j | 0 <= j < last :: grown[j] == grown[..last][j] == counts[..last][j] == counts[j];
    }
  }

  lemma {:induction false} MergedBetweenZeroAndSum(indices: seq<int>, counts: seq<int>, shift: nat)
    requires |indices| == |counts|
    requires AllAtLeastZero(counts)
    ensures AllBetween(MergedCounts(indices, counts, shift, Plus), 0, Sum(counts))
    ensures Sum(counts) >= 0
  {
    hide MergedIndices, MergedCounts, Target, AddedToLast, AllBetween, Sum, Collapses, AllAtLeastZero;
    if indices == [] {
      NothingBetween(shift);
    } else {
      var last := |indices| - 1;
      var init, initCounts, next, count := indices[..last], counts[..last], indices[last], counts[last];
      assert indices == init + [next] && counts == initCounts + [count];
      AtLeastZeroInit(counts);
      MergedBetweenZeroAndSum(init, initCounts, shift);
      MergeSnoc(init, initCounts, next, count, shift, Plus);
      SumSnoc(initCounts, count);
      BetweenSnoc(MergedCounts(init, initCounts, shift, Plus), count, Sum(initCounts));
    }
  }
}
