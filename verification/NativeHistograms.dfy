/**
 Conversion of exposed native histograms (`src/protobuf.rs:472-734`), in the
 source's imperative form and with a release build's arithmetic: `i64`
 additions wrap and a shift amount is taken modulo 64.
 */
module NativeHistograms {
  import opened Basics
  import opened Model
  import opened BucketLayout
  import opened Rebucketing
  import opened SideReduction

  const SCHEMA_MAX := 8
  const SCHEMA_MIN := -4

  datatype Sign = Negative | Positive

  datatype HistogramError =
    | SchemaTooLow(schema: int)
    | InvalidSide(sign: Sign, fault: Fault)
    | ReductionFailed(fault: Fault)
    | TooManyBuckets(limit: nat)

  // ----- merging

  lemma GapsFitSnoc(merged: seq<int>, target: int)
    ensures GapsFit(merged + [target]) <==> GapsFit(merged) && InI32(target - LastOr(merged, -1) - 1)
  {
    var grown := merged + [target];
    assert forall j | 0 <= j < |merged| :: Gap(grown, j) == Gap(merged, j);
    assert Gap(grown, |merged|) == target - LastOr(merged, -1) - 1;
    assert GapsFit(grown) ==> forall j | 0 <= j < |merged| :: InI32(Gap(grown, j));
  }

  lemma GapsFitPrefix(indices: seq<int>, n: nat, shift: nat)
    requires n <= |indices| && !GapsFit(MergedIndices(indices[..n], shift))
    ensures !GapsFit(MergedIndices(indices, shift))
  {
    var part, whole := MergedIndices(indices[..n], shift), MergedIndices(indices, shift);
    MergedPrefix(indices, n, shift);
    assert forall j | 0 <= j < |part| :: Gap(whole, j) == Gap(part, j);
  }

  lemma {:induction false} IndicesPrefix(spans: seq<BucketSpan>, n: nat)
    requires n <= |spans|
    ensures Indices(spans[..n]) <= Indices(spans)
  {
    if n < |spans| {
      var init := spans[..|spans| - 1];
      IndicesPrefix(init, n);
      assert init[..n] == spans[..n];
    } else {
      assert spans[..n] == spans;
    }
  }

  /** What the merge loop has produced after the buckets `done`, counted by `counts`. */
  ghost predicate Produced<T>(
    done: seq<int>, counts: seq<T>, shift: nat, add: (T, T) -> T,
    outSpans: seq<BucketSpan>, outCounts: seq<T>, last: Option<int>)
  {
    && |done| == |counts|
    && outSpans == Encode(MergedIndices(done, shift))
    && outCounts == MergedCounts(done, counts, shift, add)
    && last == (if done == [] then None else Some(Target(done[|done| - 1], shift)))
    && GapsFit(MergedIndices(done, shift))
  }

  /** The bucket goes to the last output bucket. */
  lemma ProducedByCollapse<T>(
    done: seq<int>, counts: seq<T>, index: int, count: T, shift: nat, add: (T, T) -> T,
    outSpans: seq<BucketSpan>, outCounts: seq<T>, last: Option<int>)
    requires Produced(done, counts, shift, add, outSpans, outCounts, last)
    requires last == Some(Target(index, shift))
    ensures outCounts != []
    ensures Produced(done + [index], counts + [count], shift, add, outSpans, AddedToLast(outCounts, count, add), last)
  {
    hide Encode, MergedIndices, MergedCounts, Target, GapsFit;
    assert Collapses(done, index, shift);
    MergeSnoc(done, counts, index, count, shift, add);
  }

  /** The bucket becomes a new output bucket, whose spans are `grown`. */
  lemma ProducedByPush<T>(
    done: seq<int>, counts: seq<T>, index: int, count: T, shift: nat, add: (T, T) -> T,
    outSpans: seq<BucketSpan>, outCounts: seq<T>, last: Option<int>, grown: seq<BucketSpan>)
    requires Produced(done, counts, shift, add, outSpans, outCounts, last)
    requires last != Some(Target(index, shift))
    requires grown == Encode(MergedIndices(done, shift) + [Target(index, shift)])
    ensures GapsFit(MergedIndices(done + [index], shift)) <==>
      InI32(Target(index, shift) - (if last.Some? then last.value else -1) - 1)
    ensures GapsFit(MergedIndices(done + [index], shift)) ==>
      Produced(done + [index], counts + [count], shift, add, grown, outCounts + [count], Some(Target(index, shift)))
  {
    hide Encode, MergedIndices, MergedCounts, Target, GapsFit;
    assert !Collapses(done, index, shift);
    MergeSnoc(done, counts, index, count, shift, add);
    GapsFitSnoc(MergedIndices(done, shift), Target(index, shift));
  }

  /** `spans` with its last span one bucket longer. */
  function Extended(spans: seq<BucketSpan>): seq<BucketSpan>
    requires spans != []
  {
    var end := |spans| - 1;
    spans[..end] + [BucketSpan(spans[end].offset, spans[end].length + 1)]
  }

  lemma ProducedByExtend<T>(
    done: seq<int>, counts: seq<T>, index: int, count: T, shift: nat, add: (T, T) -> T,
    outSpans: seq<BucketSpan>, outCounts: seq<T>, last: Option<int>)
    requires Produced(done, counts, shift, add, outSpans, outCounts, last)
    requires last == Some(Target(index, shift) - 1)
    ensures outSpans != []
    ensures Produced(
      done + [index], counts + [count], shift, add, Extended(outSpans), outCounts + [count], Some(Target(index, shift)))
  {
    hide Encode, MergedIndices, MergedCounts, Target, GapsFit;
    EncodeSnoc(MergedIndices(done, shift), Target(index, shift));
    ProducedByPush(done, counts, index, count, shift, add, outSpans, outCounts, last, Extended(outSpans));
  }

  lemma ProducedByOpen<T>(
    done: seq<int>, counts: seq<T>, index: int, count: T, shift: nat, add: (T, T) -> T,
    outSpans: seq<BucketSpan>, outCounts: seq<T>, last: Option<int>, gap: int)
    requires Produced(done, counts, shift, add, outSpans, outCounts, last)
    requires last != Some(Target(index, shift)) && last != Some(Target(index, shift) - 1)
    requires gap == Target(index, shift) - (if last.Some? then last.value else -1) - 1
    ensures GapsFit(MergedIndices(done + [index], shift)) <==> InI32(gap)
    ensures InI32(gap) ==> Produced(
      done + [index], counts + [count], shift, add,
      outSpans + [BucketSpan(gap, 1)], outCounts + [count], Some(Target(index, shift)))
  {
    hide Encode, MergedIndices, MergedCounts, Target, GapsFit;
    EncodeSnoc(MergedIndices(done, shift), Target(index, shift));
    ProducedByPush(done, counts, index, count, shift, add, outSpans, outCounts, last, outSpans + [BucketSpan(gap, 1)]);
  }

  /** The output of the merge loop so far. */
  datatype Merge<T> = Merge(spans: seq<BucketSpan>, counts: seq<T>, last: Option<int>)

  /** One bucket of the merge loop: it continues the last output bucket, follows it
      directly, or opens a new span. */
  function MergeOne<T>(m: Merge<T>, index: int, count: T, shift: nat, add: (T, T) -> T): Result<Merge<T>, Fault>
    requires m.last.Some? ==> m.spans != [] && m.counts != []
  {
    var target := Target(index, shift);
    if m.last == Some(target) then
      Ok(m.(counts := AddedToLast(m.counts, count, add)))
    else if m.last.Some? && m.last.value + 1 == target then
      Ok(Merge(Extended(m.spans), m.counts + [count], Some(target)))
    else
      var gap := if m.last.Some? then target - m.last.value - 1 else target;
      if InI32(gap) then
        Ok(Merge(m.spans + [BucketSpan(gap, 1)], m.counts + [count], Some(target)))
      else
        Err(IndexOutOfRange(gap))
  }

  /** The merge loop over the first `n` buckets of the layout `all`. */
  function MergeLoop<T>(
    all: seq<int>, counts: seq<T>, n: nat, shift: nat, add: (T, T) -> T): (r: Result<Merge<T>, Fault>)
    requires n <= |all|
    ensures r.Ok? && r.value.last.Some? ==> r.value.spans != [] && r.value.counts != []
    ensures r.Ok? ==> n <= |counts|
  {
    if n == 0 then Ok(Merge([], [], None))
    else
      var before := MergeLoop(all, counts, n - 1, shift, add);
      if before.Err? then before
      else if n > |counts| then Err(SpansExceedBuckets)
      else MergeOne(before.value, all[n - 1], counts[n - 1], shift, add)
  }

  lemma MergeLoopStart<T>(all: seq<int>, counts: seq<T>, shift: nat, add: (T, T) -> T)
    ensures MergeLoop(all, counts, 0, shift, add) == Ok(Merge([], [], None))
  {
  }

  lemma MergeLoopExhausted<T>(all: seq<int>, counts: seq<T>, shift: nat, add: (T, T) -> T)
    requires |counts| < |all| && MergeLoop(all, counts, |counts|, shift, add).Ok?
    ensures MergeLoop(all, counts, |all|, shift, add) == Err(SpansExceedBuckets)
  {
    MergeLoopStopped(all, counts, |counts| + 1, |all|, shift, add);
  }

  lemma MergeLoopStep<T>(
    all: seq<int>, counts: seq<T>, n: nat, shift: nat, add: (T, T) -> T, m: Merge<T>, index: int)
    requires n < |all| && n < |counts| && all[n] == index
    requires MergeLoop(all, counts, n, shift, add) == Ok(m)
    ensures MergeLoop(all, counts, n + 1, shift, add) == MergeOne(m, index, counts[n], shift, add)
  {
  }

  lemma {:induction false} MergeLoopStopped<T>(
    all: seq<int>, counts: seq<T>, n: nat, m: nat, shift: nat, add: (T, T) -> T)
    requires n <= m <= |all| && MergeLoop(all, counts, n, shift, add).Err?
    ensures MergeLoop(all, counts, m, shift, add) == MergeLoop(all, counts, n, shift, add)
  {
    if n < m {
      MergeLoopStopped(all, counts, n, m - 1, shift, add);
    }
  }

  /** Why merging the layout `all` with only `available` counts stops. */
  ghost predicate StopsWith(fault: Fault, all: seq<int>, available: nat, shift: nat) {
    match fault
    case SpansExceedBuckets => available < |all| && GapsFit(MergedIndices(all[..available], shift))
    case IndexOutOfRange(_) =>
      !GapsFit(MergedIndices(if available < |all| then all[..available] else all, shift))
    case _ => false
  }

  lemma StopsAt(fault: Fault, all: seq<int>, used: nat, available: nat, shift: nat)
    requires used < |all| && used < available
    requires fault.IndexOutOfRange? && !GapsFit(MergedIndices(all[..used + 1], shift))
    ensures StopsWith(fault, all, available, shift)
  {
    if available < |all| {
      assert all[..available][..used + 1] == all[..used + 1];
      GapsFitPrefix(all[..available], used + 1, shift);
    } else {
      GapsFitPrefix(all, used + 1, shift);
    }
  }

  /** The loop computes the run-length encoded merged layout and the merged counts. */
  lemma {:induction false} MergeLoopMeaning<T>(all: seq<int>, counts: seq<T>, n: nat, shift: nat, add: (T, T) -> T)
    requires n <= |all|
    ensures LoopProduced(MergeLoop(all, counts, n, shift, add), all, counts, n, shift, add)
  {
    if n > 0 {
      MergeLoopMeaning(all, counts, n - 1, shift, add);
      var before := MergeLoop(all, counts, n - 1, shift, add);
      if before.Ok? && n > |counts| {
        assert all[..n - 1] == all[..|counts|];
      } else if before.Ok? {
        MergeLoopMeaningStep(all, counts, n, shift, add, before.value);
      }
    }
  }

  ghost predicate LoopProduced<T>(
    r: Result<Merge<T>, Fault>, all: seq<int>, counts: seq<T>, n: nat, shift: nat, add: (T, T) -> T)
    requires n <= |all|
  {
    match r
    case Ok(m) => n <= |counts| && Produced(all[..n], counts[..n], shift, add, m.spans, m.counts, m.last)
    case Err(fault) => StopsWith(fault, all, |counts|, shift)
  }

  lemma MergeLoopMeaningStep<T>(all: seq<int>, counts: seq<T>, n: nat, shift: nat, add: (T, T) -> T, m: Merge<T>)
    requires 0 < n <= |all| && n <= |counts|
    requires m.last.Some? ==> m.spans != [] && m.counts != []
    requires LoopProduced(Ok(m), all, counts, n - 1, shift, add)
    ensures LoopProduced(MergeOne(m, all[n - 1], counts[n - 1], shift, add), all, counts, n, shift, add)
  {
    hide Produced, MergedIndices, GapsFit, MergeOne, StopsWith;
    TakeSnoc(all, n - 1);
    TakeSnoc(counts, n - 1);
    MergeOneMeaning(all[..n - 1], counts[..n - 1], m, all[n - 1], counts[n - 1], shift, add);
    var after := MergeOne(m, all[n - 1], counts[n - 1], shift, add);
    if after.Err? {
      StopsAt(after.error, all, n - 1, |counts|, shift);
    }
  }

  lemma MergeOneMeaning<T>(
    done: seq<int>, counts: seq<T>, m: Merge<T>, index: int, count: T, shift: nat, add: (T, T) -> T)
    requires Produced(done, counts, shift, add, m.spans, m.counts, m.last)
    requires m.last.Some? ==> m.spans != [] && m.counts != []
    ensures
      match MergeOne(m, index, count, shift, add)
      case Ok(next) =>
        Produced(done + [index], counts + [count], shift, add, next.spans, next.counts, next.last)
      case Err(fault) => fault.IndexOutOfRange? && !GapsFit(MergedIndices(done + [index], shift))
  {
    hide Produced, MergedIndices, GapsFit, Target;
    var target := Target(index, shift);
    if m.last == Some(target) {
      ProducedByCollapse(done, counts, index, count, shift, add, m.spans, m.counts, m.last);
    } else if m.last == Some(target - 1) {
      ProducedByExtend(done, counts, index, count, shift, add, m.spans, m.counts, m.last);
    } else {
      var gap := if m.last.Some? then target - m.last.value - 1 else target;
      ProducedByOpen(done, counts, index, count, shift, add, m.spans, m.counts, m.last, gap);
    }
  }

  ghost predicate RunFrom(all: seq<int>, at: nat, first: int, n: nat) {
    && at + n <= |all|
    && forall p | at <= p < at + n :: all[p] == first + (p - at)
  }

  /** The run of span `i` sits right after the indices of the spans before it. */
  lemma RunAt(spans: seq<BucketSpan>, i: nat)
    requires i < |spans|
    ensures RunFrom(Indices(spans), |Indices(spans[..i])|, End(spans[..i]) + spans[i].offset, spans[i].length)
    ensures Indices(spans[..i + 1]) <= Indices(spans)
    ensures |Indices(spans[..i + 1])| == |Indices(spans[..i])| + spans[i].length
    ensures End(spans[..i + 1]) == End(spans[..i]) + spans[i].offset + spans[i].length
  {
    assert spans[..i + 1] == spans[..i] + [spans[i]];
    IndicesSnoc(spans[..i], spans[i]);
    IndicesPrefix(spans, i + 1);
    var run := Run(End(spans[..i]) + spans[i].offset, spans[i].length);
    assert forall k | 0 <= k < |run| :: Indices(spans[..i + 1])[|Indices(spans[..i])| + k] == run[k];
  }

  /** Re-bucket `counts`, laid out by `spans`, `shift` schemas coarser. */
  method MergeBuckets<T>(spans: seq<BucketSpan>, counts: seq<T>, shift: int, add: (T, T) -> T)
    returns (r: Result<(seq<BucketSpan>, seq<T>), Fault>)
    ensures
      match MergeLoop(Indices(spans), counts, |Indices(spans)|, shift % 64, add)
      case Ok(m) => r == Ok((m.spans, m.counts))
      case Err(fault) => r == Err(fault)
  {
    hide MergeLoop, MergeOne, Indices, End;
    NoSpans();
    var m := Merge([], [], None);
    var used, index := 0, 0;
    var s := shift % 64;
    ghost var all := Indices(spans);
    MergeLoopStart(all, counts, s, add);
    for i := 0 to |spans|
      invariant used == |Indices(spans[..i])| <= |all| && index == End(spans[..i])
      invariant MergeLoop(all, counts, used, s, add) == Ok(m)
    {
      index := index + spans[i].offset;
      RunAt(spans, i);
      ghost var first, before := index, used;
      for j := 0 to spans[i].length
        invariant index == first + j && used == before + j
        invariant MergeLoop(all, counts, used, s, add) == Ok(m)
      {
        if used == |counts| {
          MergeLoopExhausted(all, counts, s, add);
          return Err(SpansExceedBuckets);
        }
        MergeLoopStep(all, counts, used, s, add, m, index);
        var next := MergeOne(m, index, counts[used], s, add);
        if next.Err? {
          MergeLoopStopped(all, counts, used + 1, |all|, s, add);
          return Err(next.error);
        }
        m := next.value;
        used := used + 1;
        index := index + 1;
      }
    }
    assert spans[..|spans|] == spans;
    r := Ok((m.spans, m.counts));
  }

  // ----- validation

  lemma {:induction false} SpanFaultStays(spans: seq<BucketSpan>, n: nat)
    requires n <= |spans| && SpanFault(spans[..n]).Some?
    ensures SpanFault(spans) == SpanFault(spans[..n])
  {
    if n == |spans| {
      assert spans[..n] == spans;
    } else {
      var init := spans[..|spans| - 1];
      assert init[..n] == spans[..n];
      SpanFaultStays(init, n);
    }
  }

  lemma {:induction false} CountFaultStays(deltas: seq<i64>, n: nat)
    requires n <= |deltas| && CountFault(deltas[..n]).Some?
    ensures CountFault(deltas) == CountFault(deltas[..n])
  {
    if n == |deltas| {
      assert deltas[..n] == deltas;
    } else {
      var init := deltas[..|deltas| - 1];
      assert init[..n] == deltas[..n];
      CountFaultStays(init, n);
    }
  }

  lemma SpanStep(spans: seq<BucketSpan>, i: nat)
    requires i < |spans| && SpanFault(spans[..i]).None?
    ensures
      var first := End(spans[..i]) + spans[i].offset;
      var last := first + Max(spans[i].length, 1) - 1;
      && SpanFault(spans[..i + 1]) ==
          (if i > 0 && spans[i].offset < 0 then Some(NegativeOffset(i))
           else if !InI32(first) || !InI32(last) then Some(IndexOutOfRange(last))
           else None)
      && End(spans[..i + 1]) == first + spans[i].length
      && |Indices(spans[..i + 1])| == |Indices(spans[..i])| + spans[i].length
  {
    assert spans[..i + 1][..i] == spans[..i];
  }

  lemma CountStep(deltas: seq<i64>, i: nat)
    requires i < |deltas|
    ensures Absolute(deltas[..i + 1]) ==
      Absolute(deltas[..i]) + [WrapAdd(LastCount(Absolute(deltas[..i])), deltas[i])]
    ensures CountFault(deltas[..i]).None? ==>
      var next := LastCount(Absolute(deltas[..i])) + deltas[i];
      CountFault(deltas[..i + 1]) ==
        if !InI64(next) then Some(CountOverflow) else if next < 0 then Some(NegativeCount(next)) else None
  {
    assert deltas[..i + 1][..i] == deltas[..i];
  }

  method ValidateSpans(spans: seq<BucketSpan>) returns (fault: Option<Fault>, covered: nat)
    ensures fault == SpanFault(spans)
    ensures fault.None? ==> covered == |Indices(spans)|
  {
    var next := 0;
    covered := 0;
    for i := 0 to |spans|
      invariant SpanFault(spans[..i]).None?
      invariant covered == |Indices(spans[..i])| && next == End(spans[..i])
    {
      SpanStep(spans, i);
      var first := next + spans[i].offset;
      var last := first + Max(spans[i].length, 1) - 1;
      if i > 0 && spans[i].offset < 0 {
        SpanFaultStays(spans, i + 1);
        return Some(NegativeOffset(i)), covered;
      }
      if !InI32(first) || !InI32(last) {
        SpanFaultStays(spans, i + 1);
        return Some(IndexOutOfRange(last)), covered;
      }
      covered := covered + spans[i].length;
      next := first + spans[i].length;
    }
    assert spans[..|spans|] == spans;
    fault := None;
  }

  method ValidateCounts(deltas: seq<i64>) returns (fault: Option<Fault>)
    ensures fault == CountFault(deltas)
  {
    var count: i64 := 0;
    for i := 0 to |deltas|
      invariant CountFault(deltas[..i]).None?
      invariant count == LastCount(Absolute(deltas[..i]))
    {
      CountStep(deltas, i);
      var next: int := count;
      next := next + deltas[i];
      if !InI64(next) {
        CountFaultStays(deltas, i + 1);
        return Some(CountOverflow);
      }
      if next < 0 {
        CountFaultStays(deltas, i + 1);
        return Some(NegativeCount(next));
      }
      count := next;
    }
    assert deltas[..|deltas|] == deltas;
    fault := None;
  }

  /** Structural checks a receiver would otherwise reject the whole request for. */
  method ValidateSide(spans: seq<BucketSpan>, buckets: nat, deltas: seq<i64>) returns (fault: Option<Fault>)
    ensures fault == SideFault(spans, buckets, deltas)
  {
    var covered;
    fault, covered := ValidateSpans(spans);
    if fault.Some? {
      return fault;
    }
    if covered != buckets {
      return Some(CoverageMismatch(covered, buckets));
    }
    fault := ValidateCounts(deltas);
  }

  // ----- reducing a side

  /** Whether merging `side` keeps every gap inside the span offset's `i32`. */
  ghost predicate ReductionFits(side: Side, shift: int) {
    GapsFit(MergedIndices(Indices(side.spans), shift % 64))
  }

  /** Any effective shift from 1 on fits: neither error branch of the merge can be reached. */
  lemma ReductionAlwaysFits(side: Side, shift: int)
    requires ValidLayout(side) && shift % 64 >= 1
    ensures ReductionFits(side, shift)
  {
    ValidSpansLayout(side.spans);
    MergedGapsFit(Indices(side.spans), shift % 64);
  }

  lemma MergeOutcome<T>(spans: seq<BucketSpan>, counts: seq<T>, shift: nat, add: (T, T) -> T)
    requires |Indices(spans)| == |counts|
    ensures
      match MergeLoop(Indices(spans), counts, |Indices(spans)|, shift, add)
      case Ok(m) =>
        && GapsFit(MergedIndices(Indices(spans), shift))
        && m.spans == Encode(MergedIndices(Indices(spans), shift))
        && m.counts == MergedCounts(Indices(spans), counts, shift, add)
      case Err(_) => !GapsFit(MergedIndices(Indices(spans), shift))
  {
    MergeLoopMeaning(Indices(spans), counts, |counts|, shift, add);
    assert Indices(spans)[..|counts|] == Indices(spans) && counts[..|counts|] == counts;
  }

  method DecodeDeltas(deltas: seq<i64>) returns (absolute: seq<i64>)
    ensures absolute == Absolute(deltas)
  {
    absolute := [];
    var count: i64 := 0;
    for i := 0 to |deltas|
      invariant absolute == Absolute(deltas[..i]) && count == LastCount(absolute)
    {
      CountStep(deltas, i);
      count := WrapAdd(count, deltas[i]);
      absolute := absolute + [count];
    }
    assert deltas[..|deltas|] == deltas;
  }

  method EncodeDeltas(counts: seq<i64>) returns (deltas: seq<i64>)
    ensures deltas == Deltas(counts)
  {
    deltas := [];
    var previous: i64 := 0;
    for i := 0 to |counts|
      invariant deltas == Deltas(counts[..i]) && previous == LastCount(counts[..i])
    {
      assert counts[..i + 1][..i] == counts[..i];
      deltas := deltas + [Wrap(counts[i] - previous)];
      previous := counts[i];
    }
    assert counts[..|counts|] == counts;
  }

  /** One side of `reduce_resolution`. */
  method ReduceSide(side: Side, shift: int, addFloat: (F64, F64) -> F64) returns (r: Result<Side, Fault>)
    requires ValidLayout(side)
    ensures r.Ok? <==> ReductionFits(side, shift)
    ensures r.Ok? ==> r.value == ReducedSide(side, shift % 64, addFloat)
  {
    if side.counts == [] {
      var absolute := DecodeDeltas(side.deltas);
      var merged := MergeBuckets<i64>(side.spans, absolute, shift, WrapPlus);
      MergeOutcome<i64>(side.spans, absolute, shift % 64, WrapPlus);
      if merged.Err? {
        return Err(merged.error);
      }
      var deltas := EncodeDeltas(merged.value.1);
      r := Ok(Side(merged.value.0, deltas, []));
    } else {
      var merged := MergeBuckets(side.spans, side.counts, shift, addFloat);
      MergeOutcome(side.spans, side.counts, shift % 64, addFloat);
      if merged.Err? {
        return Err(merged.error);
      }
      r := Ok(Side(merged.value.0, side.deltas, merged.value.1));
    }
  }
}
