/** What holds of the remote-write sender in every run: order, batch sizes, the ledger, waits. */
module SenderTheorems {
  import opened Basics
  import opened Model
  import opened SenderModel

  /** The chunks one after the other. */
  function Chunks(flushes: seq<Flush>): seq<TimeSeries> {
    if flushes == [] then []
    else Chunks(flushes[..|flushes| - 1]) + flushes[|flushes| - 1].chunk
  }

  lemma ChunksSnoc(flushes: seq<Flush>, f: Flush)
    ensures Chunks(flushes + [f]) == Chunks(flushes) + f.chunk
  {
    assert (flushes + [f])[..|flushes|] == flushes;
  }

  // ----- what every state keeps

  /** Nothing is lost, repeated or reordered between the queue and the chunks. */
  predicate InOrder(s: Sender) {
    Chunks(s.flushes) + s.pending == s.received
  }

  function Total(batches: seq<seq<TimeSeries>>): nat {
    if batches == [] then 0 else |batches[0]| + Total(batches[1..])
  }

  lemma {:induction false} TotalSnoc(batches: seq<seq<TimeSeries>>, batch: seq<TimeSeries>)
    ensures Total(batches + [batch]) == Total(batches) + |batch|
  {
    if batches != [] {
      TotalSnoc(batches[1..], batch);
      assert (batches + [batch])[1..] == batches[1..] + [batch];
    }
  }

  predicate Balanced(s: Sender) {
    s.offered == s.dropped + Total(s.queue) + s.withheld + |s.received|
  }

  /** The wait after the `k`-th failed attempt. */
  function Wait(config: Config, k: nat): nat {
    if k == 0 then config.minBackoff else Min(Wait(config, k - 1) * 2, config.maxBackoff)
  }

  /** Size-triggered chunks are exactly full, the others are not full and not empty; what is sent
      is what write relabeling keeps; waits follow the backoff; and only a chunk with nothing
      kept ends without being offered to the endpoint. */
  predicate WellFormed(config: Config, f: Flush) {
    && (f.cause.BySize? ==> |f.chunk| == config.maxSamplesPerSend)
    && (!f.cause.BySize? ==> 0 < |f.chunk| < config.maxSamplesPerSend)
    && f.kept == Kept(config, f.chunk)
    && (forall k | 0 <= k < |f.waits| :: f.waits[k] == Wait(config, k))
    && (f.outcome == Some(Emptied) ==> f.kept == [])
    && (f.outcome.Some? && f.outcome != Some(Emptied) ==> f.kept != [])
  }

  ghost predicate AllWellFormed(config: Config, flushes: seq<Flush>) {
    forall i | 0 <= i < |flushes| :: WellFormed(config, flushes[i])
  }

  ghost predicate AllSettled(flushes: seq<Flush>) {
    forall i | 0 <= i < |flushes| :: flushes[i].outcome.Some?
  }

  /** All flushes have ended but the last, which is in progress. */
  ghost predicate OneInProgress(s: Sender) {
    && s.flushes != []
    && AllSettled(s.flushes[..|s.flushes| - 1])
    && Last(s).outcome.None?
    && (Last(s).cause.BySize? || s.pending == [])
    && (Last(s).cause.ByClose? ==> s.queue == [] && !s.open)
  }

  ghost predicate InPhase(config: Config, s: Sender) {
    match s.phase
    case Waiting => AllSettled(s.flushes) && |s.pending| < config.maxSamplesPerSend
    case Encoding => OneInProgress(s) && Last(s).waits == []
    case Sending(backoff) => OneInProgress(s) && Last(s).kept != [] && backoff == Wait(config, |Last(s).waits|)
    case Stopped => AllSettled(s.flushes) && s.pending == [] && s.queue == [] && !s.open
    case Gone => s.flushes != [] ==> AllSettled(s.flushes[..|s.flushes| - 1])
  }

  ghost predicate Invariant(config: Config, s: Sender) {
    && InOrder(s) && Balanced(s) && AllWellFormed(config, s.flushes) && InPhase(config, s)
    && |s.queue| <= config.Slots()
  }

  lemma StartInvariant(config: Config)
    requires config.Valid()
    ensures Invariant(config, START)
  {
  }

  // ----- one lemma for each way a state changes

  lemma BeginKeeps(config: Config, s: Sender, n: nat, cause: Cause)
    requires InOrder(s) && AllWellFormed(config, s.flushes) && AllSettled(s.flushes)
    requires n <= |s.pending|
    requires if cause.BySize? then n == config.maxSamplesPerSend
             else n == |s.pending| && 0 < n < config.maxSamplesPerSend
    requires cause.ByClose? ==> s.queue == [] && !s.open
    ensures InOrder(Begin(config, s, n, cause))
    ensures AllWellFormed(config, Begin(config, s, n, cause).flushes)
    ensures InPhase(config, Begin(config, s, n, cause))
    ensures Balanced(s) ==> Balanced(Begin(config, s, n, cause))
  {
    hide Kept, Chunks, Total, AllWellFormed, AllSettled, WellFormed;
    var t := Begin(config, s, n, cause);
    BeginWellFormed(config, s, n, cause);
    BeginInOrder(config, s, n, cause);
    assert t.flushes[..|s.flushes|] == s.flushes;
  }

  lemma BeginInOrder(config: Config, s: Sender, n: nat, cause: Cause)
    requires InOrder(s) && n <= |s.pending|
    ensures InOrder(Begin(config, s, n, cause))
  {
    hide Kept, Chunks;
    var chunk, rest := s.pending[..n], s.pending[n..];
    ChunksSnoc(s.flushes, Last(Begin(config, s, n, cause)));
    assert chunk + rest == s.pending;
    assert (Chunks(s.flushes) + chunk) + rest == Chunks(s.flushes) + (chunk + rest);
  }

  lemma BeginWellFormed(config: Config, s: Sender, n: nat, cause: Cause)
    requires AllWellFormed(config, s.flushes) && n <= |s.pending|
    requires if cause.BySize? then n == config.maxSamplesPerSend
             else n == |s.pending| && 0 < n < config.maxSamplesPerSend
    ensures AllWellFormed(config, Begin(config, s, n, cause).flushes)
  {
    hide Kept;
    assert WellFormed(config, Last(Begin(config, s, n, cause)));
  }

  lemma ContinueKeeps(config: Config, s: Sender)
    requires InOrder(s) && AllWellFormed(config, s.flushes) && AllSettled(s.flushes)
    ensures InOrder(Continue(config, s)) && AllWellFormed(config, Continue(config, s).flushes)
    ensures InPhase(config, Continue(config, s))
    ensures Balanced(s) ==> Balanced(Continue(config, s))
  {
    hide AllWellFormed, Begin, Chunks, Total;
    if |s.pending| >= config.maxSamplesPerSend {
      BeginKeeps(config, s, config.maxSamplesPerSend, BySize);
    }
  }

  /** Replacing the flush in progress by one of the same chunk. */
  lemma WithLastKeeps(config: Config, s: Sender, f: Flush)
    requires InOrder(s) && AllWellFormed(config, s.flushes) && OneInProgress(s)
    requires WellFormed(config, f) && f.chunk == Last(s).chunk
    ensures InOrder(WithLast(s, f)) && AllWellFormed(config, WithLast(s, f).flushes)
    ensures WithLast(s, f).flushes[..|s.flushes| - 1] == s.flushes[..|s.flushes| - 1]
    ensures |WithLast(s, f).flushes| == |s.flushes| && Last(WithLast(s, f)) == f
    ensures f.outcome.Some? ==> AllSettled(WithLast(s, f).flushes)
  {
    hide WellFormed, Chunks;
    var init := s.flushes[..|s.flushes| - 1];
    ChunksSnoc(init, f);
    ChunksSnoc(init, Last(s));
    assert s.flushes == init + [Last(s)];
    assert WithLast(s, f).flushes == init + [f];
  }

  lemma SettleKeeps(config: Config, s: Sender, outcome: Outcome)
    requires Invariant(config, s) && Busy(s)
    requires outcome == Emptied <==> Last(s).kept == []
    ensures Invariant(config, Settle(config, s, outcome))
  {
    hide Chunks, Total, Continue, AllWellFormed, AllSettled;
    var f := Last(s).(outcome := Some(outcome));
    LastWellFormed(config, s);
    WithLastKeeps(config, s, f);
    if f.cause.BySize? {
      hide WithLast, OneInProgress;
      ContinueKeeps(config, WithLast(s, f));
      ContinueQueue(config, WithLast(s, f));
    }
  }

  lemma ContinueQueue(config: Config, s: Sender)
    ensures Continue(config, s).queue == s.queue
  {
  }

  lemma LastWellFormed(config: Config, s: Sender)
    requires AllWellFormed(config, s.flushes) && s.flushes != []
    ensures WellFormed(config, Last(s))
  {
  }

  lemma OfferKeeps(config: Config, s: Sender, batch: seq<TimeSeries>)
    requires Invariant(config, s) && Enabled(s, Offer(batch))
    ensures Invariant(config, Next(config, s, Offer(batch)))
  {
    hide AllWellFormed, AllSettled;
    TotalSnoc(s.queue, batch);
  }

  lemma TakenInOrder(s: Sender, t: Sender, taken: seq<TimeSeries>)
    requires InOrder(s) && t.flushes == s.flushes
    requires t.pending == s.pending + taken && t.received == s.received + taken
    ensures InOrder(t)
  {
    hide Chunks;
    assert Chunks(s.flushes) + (s.pending + taken) == (Chunks(s.flushes) + s.pending) + taken;
  }

  lemma ReceiveKeeps(config: Config, s: Sender)
    requires Invariant(config, s) && Enabled(s, Receive)
    ensures Invariant(config, Next(config, s, Receive))
  {
    hide AllWellFormed, AllSettled, Chunks, Sendable, Continue, InOrder;
    var sendable := Sendable(config, s.queue[0]);
    SendableIsNoLonger(config, s.queue[0]);
    var t := s.(
      queue := s.queue[1..], pending := s.pending + sendable, received := s.received + sendable,
      withheld := s.withheld + |s.queue[0]| - |sendable|);
    TakenInOrder(s, t, sendable);
    assert Balanced(t);
    ContinueKeeps(config, t);
    ContinueQueue(config, t);
  }

  lemma AnswerKeeps(config: Config, s: Sender, reply: Reply)
    requires Invariant(config, s) && Enabled(s, Answer(reply))
    ensures Invariant(config, Next(config, s, Answer(reply)))
  {
    hide AllWellFormed, AllSettled, Chunks, Total, Settle;
    LastWellFormed(config, s);
    match reply
    case Ok => SettleKeeps(config, s, Accepted);
    case Unrecoverable => SettleKeeps(config, s, Rejected);
    case Recoverable =>
      var f := Last(s).(waits := Last(s).waits + [s.phase.backoff]);
      assert WellFormed(config, f);
      WithLastKeeps(config, s, f);
  }

  lemma EncodeKeeps(config: Config, s: Sender, compresses: bool)
    requires Invariant(config, s) && Enabled(s, Encode(compresses))
    ensures Invariant(config, Next(config, s, Encode(compresses)))
  {
    hide AllWellFormed, AllSettled, Chunks, Total, Settle;
    if Last(s).kept == [] {
      SettleKeeps(config, s, Emptied);
    } else if !compresses {
      SettleKeeps(config, s, Uncompressible);
    }
  }

  lemma FlushRestKeeps(config: Config, s: Sender, cause: Cause)
    requires Invariant(config, s) && s.phase.Waiting? && s.pending != [] && !cause.BySize?
    requires cause.ByClose? ==> s.queue == [] && !s.open
    ensures Invariant(config, Begin(config, s, |s.pending|, cause))
  {
    hide AllWellFormed, AllSettled, Chunks, Total;
    BeginKeeps(config, s, |s.pending|, cause);
  }

  lemma DieKeeps(config: Config, s: Sender)
    requires Invariant(config, s) && Enabled(s, Die)
    ensures Invariant(config, Next(config, s, Die))
  {
    hide Chunks, Total, WellFormed;
  }

  lemma StepKeeps(config: Config, s: Sender, e: Event)
    requires Invariant(config, s) && Enabled(s, e)
    ensures Invariant(config, Next(config, s, e))
  {
    hide AllWellFormed, AllSettled, Chunks, Total, Begin;
    match e
    case Offer(batch) => OfferKeeps(config, s, batch);
    case DropHandles =>
    case Receive => ReceiveKeeps(config, s);
    case Tick => if s.pending != [] { FlushRestKeeps(config, s, ByDeadline); }
    case Close => if s.pending != [] { FlushRestKeeps(config, s, ByClose); }
    case Encode(compresses) => EncodeKeeps(config, s, compresses);
    case Answer(reply) => AnswerKeeps(config, s, reply);
    case Die => DieKeeps(config, s);
  }

  // ----- the theorems, over all runs

  /** Batching: in every run the chunks and what is pending are the received series in order,
      size-triggered chunks are exactly full, and pending is below the bound while waiting. */
  lemma {:induction false} RunKeeps(config: Config, s: Sender, events: seq<Event>)
    requires Invariant(config, s) && Possible(config, s, events)
    ensures Invariant(config, Run(config, s, events))
    decreases |events|
  {
    hide Invariant, Next, Enabled;
    if events != [] {
      StepKeeps(config, s, events[0]);
      RunKeeps(config, Next(config, s, events[0]), events[1..]);
    }
  }

  /** Series kept in the flushes with the given outcome; `None` is the one being retried. */
  function Count(flushes: seq<Flush>, outcome: Option<Outcome>): nat {
    if flushes == [] then 0
    else
      var last := flushes[|flushes| - 1];
      Count(flushes[..|flushes| - 1], outcome) + (if last.outcome == outcome then |last.kept| else 0)
  }

  /** Series write relabeling dropped. */
  function Filtered(config: Config, flushes: seq<Flush>): nat {
    if flushes == [] then 0
    else
      var last := flushes[|flushes| - 1];
      KeptIsNoLonger(config, last.chunk);
      Filtered(config, flushes[..|flushes| - 1]) + (|last.chunk| - |Kept(config, last.chunk)|)
  }

  lemma {:induction false} ChunksByOutcome(config: Config, flushes: seq<Flush>)
    requires AllWellFormed(config, flushes)
    ensures |Chunks(flushes)| ==
      Filtered(config, flushes) + Count(flushes, None) + Count(flushes, Some(Accepted))
      + Count(flushes, Some(Rejected)) + Count(flushes, Some(Uncompressible))
  {
    hide Kept;
    if flushes != [] {
      var init := flushes[..|flushes| - 1];
      assert forall i | 0 <= i < |init| :: init[i] == flushes[i];
      var last := flushes[|flushes| - 1];
      ChunksByOutcome(config, init);
      assert WellFormed(config, last);
      KeptIsNoLonger(config, last.chunk);
      assert Filtered(config, flushes) == Filtered(config, init) + (|last.chunk| - |last.kept|);
      match last.outcome
      case None =>
      case Some(Emptied) =>
      case Some(Uncompressible) =>
      case Some(Accepted) =>
      case Some(Rejected) =>
    }
  }

  /** The delivery ledger: every series ever offered is accounted for, in every reachable state. */
  lemma Ledger(config: Config, events: seq<Event>)
    requires config.Valid() && Possible(config, START, events)
    ensures
      var s := Run(config, START, events);
      s.offered == s.dropped + Total(s.queue) + s.withheld + |s.pending|
        + Filtered(config, s.flushes) + Count(s.flushes, None) + Count(s.flushes, Some(Accepted))
        + Count(s.flushes, Some(Rejected)) + Count(s.flushes, Some(Uncompressible))
  {
    hide Run, Possible, Total, Chunks, Count, Filtered, AllWellFormed, InPhase;
    var s := Run(config, START, events);
    StartInvariant(config);
    RunKeeps(config, START, events);
    ChunksByOutcome(config, s.flushes);
  }

  lemma {:induction false} SettledCount(flushes: seq<Flush>)
    requires AllSettled(flushes)
    ensures Count(flushes, None) == 0
  {
    if flushes != [] {
      var init := flushes[..|flushes| - 1];
      assert forall i | 0 <= i < |init| :: init[i] == flushes[i];
      SettledCount(init);
      assert flushes[|flushes| - 1].outcome.Some?;
    }
  }

  /** Once the handles are gone and the task has stopped, nothing is left anywhere: what was
      offered was dropped, filtered, accepted or rejected, and every received series was in
      exactly one chunk, in order. */
  lemma CloseLeavesNothing(config: Config, events: seq<Event>)
    requires config.Valid() && Possible(config, START, events) && Run(config, START, events).phase.Stopped?
    ensures
      var s := Run(config, START, events);
      && Chunks(s.flushes) == s.received
      && s.queue == [] && s.pending == []
      && s.offered == s.dropped + s.withheld + Filtered(config, s.flushes) + Count(s.flushes, Some(Accepted))
        + Count(s.flushes, Some(Rejected)) + Count(s.flushes, Some(Uncompressible))
  {
    hide Run, Possible, Chunks, Count, Filtered, AllWellFormed, AllSettled;
    var s := Run(config, START, events);
    StartInvariant(config);
    RunKeeps(config, START, events);
    Ledger(config, events);
    SettledCount(s.flushes);
    assert Chunks(s.flushes) + [] == Chunks(s.flushes);
  }

  // ----- outcomes are final

  lemma SettledStays(config: Config, s: Sender, e: Event, i: nat)
    requires Invariant(config, s) && Enabled(s, e) && i < |s.flushes| && s.flushes[i].outcome.Some?
    ensures i < |Next(config, s, e).flushes| && Next(config, s, e).flushes[i] == s.flushes[i]
  {
    hide Chunks, Total, AllWellFormed, Balanced, Kept, Sendable;
    if Busy(s) {
      assert i != |s.flushes| - 1;
    }
  }

  /** A batch ends with at most one outcome: once it has one, no later step changes it. */
  lemma {:induction false} OutcomesAreFinal(config: Config, s: Sender, events: seq<Event>, i: nat)
    requires Invariant(config, s) && Possible(config, s, events)
    requires i < |s.flushes| && s.flushes[i].outcome.Some?
    ensures i < |Run(config, s, events).flushes| && Run(config, s, events).flushes[i] == s.flushes[i]
    decreases |events|
  {
    hide Invariant, Next, Enabled;
    if events != [] {
      SettledStays(config, s, events[0], i);
      StepKeeps(config, s, events[0]);
      OutcomesAreFinal(config, Next(config, s, events[0]), events[1..], i);
    }
  }

  // ----- backoff

  /** The first wait is the minimum, whatever the maximum; the `k`-th after it is the minimum
      doubled `k` times, up to the maximum. */
  lemma {:induction false} WaitClosedForm(config: Config, k: nat)
    ensures Wait(config, 0) == config.minBackoff
    ensures k > 0 ==> Wait(config, k) == Min(config.minBackoff * Pow2(k), config.maxBackoff)
  {
    if k > 0 {
      WaitClosedForm(config, k - 1);
      assert config.minBackoff * Pow2(k) == (config.minBackoff * Pow2(k - 1)) * 2;
    }
  }
}
