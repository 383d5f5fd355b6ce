/**
 Sparse bucket layouts: a list of spans stands for the increasing sequence of
 populated bucket indices, and every such sequence has one canonical span list.
 */
module BucketLayout {
  import opened Basics
  import opened Model

  /** The indices `first, first + 1, ..., first + n - 1`. */
  function Run(first: int, n: nat): (r: seq<int>)
    ensures |r| == n
  {
    seq(n, j => first + j)
  }

  /** Index right after the last span. */
  function End(spans: seq<BucketSpan>): int {
    if spans == [] then 0
    else
      var span := spans[|spans| - 1];
      End(spans[..|spans| - 1]) + span.offset + span.length
  }

  /** The bucket indices laid out by `spans`, in order. */
  function Indices(spans: seq<BucketSpan>): seq<int> {
    if spans == [] then []
    else
      var prefix, span := spans[..|spans| - 1], spans[|spans| - 1];
      Indices(prefix) + Run(End(prefix) + span.offset, span.length)
  }

  /** Distance from bucket `j` back to the bucket after its predecessor. */
  function Gap(indices: seq<int>, j: nat): int
    requires j < |indices|
  {
    if j == 0 then indices[0] else indices[j] - indices[j - 1] - 1
  }

  ghost predicate GapsFit(indices: seq<int>) {
    forall j | 0 <= j < |indices| :: InI32(Gap(indices, j))
  }

  ghost predicate StrictlyIncreasing(indices: seq<int>) {
    forall i, j | 0 <= i < j < |indices| :: indices[i] < indices[j]
  }

  ghost predicate Within(indices: seq<int>, low: int, high: int) {
    forall i | 0 <= i < |indices| :: low <= indices[i] <= high
  }

  /** The open span one longer, or a new span of one after a gap. */
  function Grown(spans: seq<BucketSpan>, gap: int): seq<BucketSpan> {
    if spans != [] && gap == 0 then
      spans[..|spans| - 1] + [BucketSpan(spans[|spans| - 1].offset, spans[|spans| - 1].length + 1)]
    else spans + [BucketSpan(gap, 1)]
  }

  /** Run-length encoding of a sequence of bucket indices. */
  function Encode(indices: seq<int>): (spans: seq<BucketSpan>)
    ensures indices != [] <==> spans != []
    ensures |spans| <= |indices|
  {
    if indices == [] then []
    else
      var last := |indices| - 1;
      Grown(Encode(indices[..last]), Gap(indices, last))
  }

  /** Maximal runs only: no empty span, and a real gap before every span but the first. */
  ghost predicate Canonical(spans: seq<BucketSpan>) {
    && (forall i | 0 <= i < |spans| :: spans[i].length > 0)
    && (forall i | 0 < i < |spans| :: spans[i].offset > 0)
  }

  /** Extending the last span by one appends the next index. */
  lemma ExtendLast(spans: seq<BucketSpan>)
    requires spans != []
    ensures
      var open := spans[|spans| - 1];
      var extended := spans[..|spans| - 1] + [open.(length := open.length + 1)];
      End(extended) == End(spans) + 1 && Indices(extended) == Indices(spans) + [End(spans)]
  {
    var k := |spans| - 1;
    var open := spans[k];
    var extended := spans[..k] + [open.(length := open.length + 1)];
    assert extended[..k] == spans[..k];
    var first := End(spans[..k]) + open.offset;
    assert Run(first, open.length + 1) == Run(first, open.length) + [first + open.length];
  }

  lemma AppendSpan(spans: seq<BucketSpan>, gap: int)
    ensures
      var extended := spans + [BucketSpan(gap, 1)];
      End(extended) == End(spans) + gap + 1 && Indices(extended) == Indices(spans) + [End(spans) + gap]
  {
    assert (spans + [BucketSpan(gap, 1)])[..|spans|] == spans;
  }

  function LastOr(indices: seq<int>, default: int): int {
    if indices == [] then default else indices[|indices| - 1]
  }

  /** Decoding the run-length encoding gives back every index sequence. */
  lemma {:induction false} EncodeRoundTrip(indices: seq<int>)
    ensures Indices(Encode(indices)) == indices
    ensures End(Encode(indices)) == LastOr(indices, -1) + 1
    decreases |indices|, 0
  {
    if indices != [] {
      hide Encode, Indices, End;
      var last := |indices| - 1;
      EncodeRoundTripStep(indices[..last], indices[last]);
      assert indices == indices[..last] + [indices[last]];
    }
  }

  lemma {:induction false} EncodeRoundTripStep(indices: seq<int>, next: int)
    ensures Indices(Encode(indices + [next])) == indices + [next]
    ensures End(Encode(indices + [next])) == next + 1
    decreases |indices|, 1
  {
    hide Encode, Indices, End;
    EncodeRoundTrip(indices);
    EncodeSnoc(indices, next);
    var spans, gap := Encode(indices), GapAfter(indices, next);
    if indices != [] && gap == 0 {
      ExtendLast(spans);
    } else {
      AppendSpan(spans, gap);
    }
  }

  lemma {:induction false} EncodeIsCanonical(indices: seq<int>)
    requires StrictlyIncreasing(indices)
    ensures Canonical(Encode(indices))
  {
    hide Grown;
    if indices != [] {
      var last := |indices| - 1;
      assert StrictlyIncreasing(indices[..last]);
      EncodeIsCanonical(indices[..last]);
      GrownIsCanonical(Encode(indices[..last]), Gap(indices, last));
    }
  }

  lemma GrownIsCanonical(spans: seq<BucketSpan>, gap: int)
    requires Canonical(spans) && (spans != [] ==> gap >= 0)
    ensures Canonical(Grown(spans, gap))
  {
  }

  function GapAfter(indices: seq<int>, next: int): int {
    if indices == [] then next else next - indices[|indices| - 1] - 1
  }

  lemma EncodeSnoc(indices: seq<int>, next: int)
    ensures Encode(indices + [next]) == Grown(Encode(indices), GapAfter(indices, next))
  {
    hide Grown;
    var all := indices + [next];
    assert all[..|indices|] == indices && all[|indices|] == next;
    assert indices != [] ==> all[|indices| - 1] == indices[|indices| - 1];
  }

  /** Encoding a run right after `spans` adds exactly one span when there is a gap. */
  lemma {:induction false} EncodeRun(indices: seq<int>, first: int, n: nat)
    requires n > 0
    requires indices != [] ==> first > indices[|indices| - 1] + 1
    ensures Encode(indices + Run(first, n)) ==
      Encode(indices) + [BucketSpan(if indices == [] then first else first - indices[|indices| - 1] - 1, n)]
  {
    hide Encode;
    if n == 1 {
      assert Run(first, 1) == [first];
      EncodeSnoc(indices, first);
    } else {
      var shorter := indices + Run(first, n - 1);
      EncodeRun(indices, first, n - 1);
      assert indices + Run(first, n) == shorter + [first + n - 1];
      assert shorter[|shorter| - 1] == first + n - 2;
      EncodeSnoc(shorter, first + n - 1);
    }
  }

  lemma NoSpans()
    ensures Indices([]) == [] && End([]) == 0
  {
  }

  lemma IndicesSnoc(spans: seq<BucketSpan>, span: BucketSpan)
    ensures Indices(spans + [span]) == Indices(spans) + Run(End(spans) + span.offset, span.length)
    ensures End(spans + [span]) == End(spans) + span.offset + span.length
  {
    assert (spans + [span])[..|spans|] == spans;
  }

  /** Canonical span lists are the only ones `Encode` produces: it inverts `Indices` on them. */
  lemma {:induction false} CanonicalRoundTrip(spans: seq<BucketSpan>)
    requires Canonical(spans)
    ensures Encode(Indices(spans)) == spans
    ensures End(spans) == LastOr(Indices(spans), -1) + 1
  {
    if spans != [] {
      var init, span := spans[..|spans| - 1], spans[|spans| - 1];
      assert spans == init + [span];
      assert Encode(Indices(init)) == init && End(init) == LastOr(Indices(init), -1) + 1 by {
        CanonicalRoundTrip(init);
      }
      CanonicalRoundTripStep(init, span);
    }
  }

  lemma CanonicalRoundTripStep(init: seq<BucketSpan>, span: BucketSpan)
    requires span.length > 0 && (init == [] || span.offset > 0)
    requires Encode(Indices(init)) == init && End(init) == LastOr(Indices(init), -1) + 1
    ensures Encode(Indices(init + [span])) == init + [span]
    ensures End(init + [span]) == LastOr(Indices(init + [span]), -1) + 1
  {
    hide Encode, Indices, End;
    var indices, first := Indices(init), End(init) + span.offset;
    var run := Run(first, span.length);
    assert Indices(init + [span]) == indices + run && End(init + [span]) == first + span.length by {
      IndicesSnoc(init, span);
    }
    assert run[|run| - 1] == first + span.length - 1;
    assert Encode(indices + run) == Encode(indices) + [span] by {
      EncodeRun(indices, first, span.length);
    }
  }
}
