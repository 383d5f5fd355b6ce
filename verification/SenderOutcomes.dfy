/**
 What each event does to the batches of a remote-write sender, and how a batch ends
 (`src/remote_write.rs:65-94`, `src/remote_write.rs:199-346`, `src/remote_write.rs:565-577`).
 */
module SenderOutcomes {
  import opened Basics
  import opened Model
  import opened LabelLists
  import opened Relabel
  import opened SenderModel
  import opened SenderTheorems

  // ----- the queue

  /** A batch is queued whole, or dropped whole and counted: dropped exactly when a sixteenth batch,
      or one per hundred samples of capacity if that is more, is already waiting, or the task is gone. */
  lemma OfferOutcome(config: Config, s: Sender, batch: seq<TimeSeries>)
    requires Enabled(s, Offer(batch)) && batch != []
    ensures
      var slots := if config.capacity >= 1600 then config.capacity / 100 else 16;
      var t := Next(config, s, Offer(batch));
      && t.offered == s.offered + |batch|
      && t.pending == s.pending && t.phase == s.phase && t.flushes == s.flushes
      && if |s.queue| < slots && !s.phase.Gone? then t.queue == s.queue + [batch] && t.dropped == s.dropped
         else t.queue == s.queue && t.dropped == s.dropped + |batch|
  {
  }

  /** Only series with a histogram are left out, and the others stay in order. */
  lemma {:induction false} WithoutHistogramsExactly(a: seq<TimeSeries>, b: seq<TimeSeries>, single: TimeSeries)
    ensures WithoutHistograms([]) == []
    ensures WithoutHistograms([single]) == if single.histogram.Some? then [] else [single]
    ensures WithoutHistograms(a + b) == WithoutHistograms(a) + WithoutHistograms(b)
  {
    if a == [] {
      assert a + b == b;
    } else {
      WithoutHistogramsExactly(a[1..], b, single);
      assert (a + b)[1..] == a[1..] + b && (a + b)[0] == a[0];
      Regroup(if a[0].histogram.None? then [a[0]] else [], WithoutHistograms(a[1..]), WithoutHistograms(b));
    }
  }

  lemma NothingRelabelled(config: Config)
    ensures RelabelEach(config, []) == []
  {
  }

  lemma RelabelledOne(config: Config, single: TimeSeries)
    ensures RelabelEach(config, [single]) == (
      match Process(single.labels, config.writeRelabelConfigs, config.library)
      case Some(labels) => [TimeSeries(SortLabels(labels), single.sample, single.identityHash, single.histogram)]
      case None => [])
  {
    hide Process, SortLabels;
    assert [single][1..] == [];
  }

  lemma RelabelledHead(config: Config, chunk: seq<TimeSeries>)
    requires chunk != []
    ensures RelabelEach(config, chunk) == RelabelEach(config, [chunk[0]]) + RelabelEach(config, chunk[1..])
  {
    hide Process, SortLabels;
    RelabelledOne(config, chunk[0]);
  }

  /** Series the rules keep go on with the labels the rules leave, sorted, and otherwise as they
      were, in order; without rules nothing changes. */
  lemma {:induction false} KeptExactly(config: Config, a: seq<TimeSeries>, b: seq<TimeSeries>, single: TimeSeries)
    ensures config.writeRelabelConfigs == [] ==> Kept(config, a) == a
    ensures config.writeRelabelConfigs != [] ==>
      && Kept(config, []) == []
      && Kept(config, [single]) == (
        match Process(single.labels, config.writeRelabelConfigs, config.library)
        case Some(labels) => [TimeSeries(SortLabels(labels), single.sample, single.identityHash, single.histogram)]
        case None => [])
      && Kept(config, a + b) == Kept(config, a) + Kept(config, b)
  {
    hide Process, SortLabels, RelabelEach;
    NothingRelabelled(config);
    RelabelledOne(config, single);
    if a == [] {
      assert a + b == b;
    } else {
      KeptExactly(config, a[1..], b, single);
      assert (a + b)[1..] == a[1..] + b && (a + b)[0] == a[0];
      RelabelledHead(config, a);
      RelabelledHead(config, a + b);
      Regroup(RelabelEach(config, [a[0]]), RelabelEach(config, a[1..]), RelabelEach(config, b));
    }
  }

  // ----- from the queue to a flush

  /** The flush that `t` has just begun and `s` had not: `chunk`, for `cause`. */
  ghost predicate Begun(config: Config, s: Sender, t: Sender, chunk: seq<TimeSeries>, cause: Cause) {
    && t.phase == Encoding
    && |t.flushes| == |s.flushes| + 1 && t.flushes[..|s.flushes|] == s.flushes
    && t.flushes[|s.flushes|] == Flush(cause, chunk, Kept(config, chunk), [], None)
  }

  /** Receiving takes the oldest batch, without its histograms where the endpoint wants none, and
      then flushes the oldest pending series as soon as there are enough for a full request. */
  lemma ReceiveOutcome(config: Config, s: Sender)
    requires Enabled(s, Receive)
    ensures
      var t := Next(config, s, Receive);
      var taken := if config.sendNativeHistograms then s.queue[0] else WithoutHistograms(s.queue[0]);
      var pending := s.pending + taken;
      && s.queue == [s.queue[0]] + t.queue && t.dropped == s.dropped && t.open == s.open
      && t.received == s.received + taken
      && if |pending| >= config.maxSamplesPerSend then
           && Begun(config, s, t, pending[..config.maxSamplesPerSend], BySize)
           && t.pending == pending[config.maxSamplesPerSend..]
         else
           t.phase == Waiting && t.pending == pending && t.flushes == s.flushes
  {
    hide Kept, WithoutHistograms;
    SendableIsNoLonger(config, s.queue[0]);
  }

  /** The deadline, and the end, flush everything that is pending, if anything is; after the end
      nothing else happens. */
  lemma RestOutcome(config: Config, s: Sender, e: Event)
    requires Enabled(s, e) && (e.Tick? || e.Close?)
    ensures
      var t := Next(config, s, e);
      && t.queue == s.queue && t.dropped == s.dropped && t.received == s.received && t.open == s.open
      && t.pending == []
      && if s.pending == [] then t.flushes == s.flushes && t.phase == (if e.Close? then Stopped else Waiting)
         else Begun(config, s, t, s.pending, if e.Close? then ByClose else ByDeadline)
  {
    hide Kept;
    assert s.pending[..|s.pending|] == s.pending && s.pending[|s.pending|..] == [];
  }

  // ----- how a batch ends

  /** Where the task goes on after a flush: with the next full chunk or waiting, when it had received;
      waiting, when the deadline had passed; and not at all, when it was closed. */
  ghost predicate Resumed(config: Config, s: Sender, t: Sender)
    requires s.flushes != []
  {
    if Last(s).cause.BySize? && |s.pending| >= config.maxSamplesPerSend then
      var chunk := s.pending[..config.maxSamplesPerSend];
      && t.phase == Encoding && t.pending == s.pending[config.maxSamplesPerSend..]
      && |t.flushes| == |s.flushes| + 1
      && t.flushes[|s.flushes|] == Flush(BySize, chunk, Kept(config, chunk), [], None)
    else
      && t.phase == (if Last(s).cause.ByClose? then Stopped else Waiting)
      && t.pending == s.pending && |t.flushes| == |s.flushes|
  }

  /** `t` has the flush that was in progress in `s` ended with `outcome` after `waits`, and goes on;
      everything else of the past is as it was. */
  ghost predicate Ended(config: Config, s: Sender, t: Sender, waits: seq<nat>, outcome: Outcome)
    requires s.flushes != []
  {
    && t.queue == s.queue && t.dropped == s.dropped && t.received == s.received && t.open == s.open
    && |t.flushes| >= |s.flushes| && t.flushes[..|s.flushes| - 1] == s.flushes[..|s.flushes| - 1]
    && t.flushes[|s.flushes| - 1] == Last(s).(waits := waits, outcome := Some(outcome))
    && Resumed(config, s, t)
  }

  lemma SettleEnds(config: Config, s: Sender, outcome: Outcome)
    requires s.flushes != []
    ensures Ended(config, s, Settle(config, s, outcome), Last(s).waits, outcome)
  {
    hide Kept;
  }

  /** A batch of which nothing is kept, or that does not compress, ends there; any other is tried. */
  lemma EncodeOutcome(config: Config, s: Sender, compresses: bool)
    requires Enabled(s, Encode(compresses))
    ensures
      var t := Next(config, s, Encode(compresses));
      if Last(s).kept == [] then Ended(config, s, t, Last(s).waits, Emptied)
      else if !compresses then Ended(config, s, t, Last(s).waits, Uncompressible)
      else t == s.(phase := Sending(config.minBackoff))
  {
    hide Settle, Ended;
    SettleEnds(config, s, Emptied);
    SettleEnds(config, s, Uncompressible);
  }

  /** A recoverable failure keeps the batch: nothing changes but the waits, by the current backoff,
      and the backoff, doubled up to the maximum. Any other answer ends it. */
  lemma AnswerOutcome(config: Config, s: Sender, reply: Reply)
    requires Enabled(s, Answer(reply))
    ensures
      var t := Next(config, s, Answer(reply));
      var doubled := 2 * s.phase.backoff;
      match reply
      case Ok => Ended(config, s, t, Last(s).waits, Accepted)
      case Unrecoverable => Ended(config, s, t, Last(s).waits, Rejected)
      case Recoverable =>
        t == s.(
          phase := Sending(if doubled <= config.maxBackoff then doubled else config.maxBackoff),
          flushes := s.flushes[..|s.flushes| - 1] + [Last(s).(waits := Last(s).waits + [s.phase.backoff])])
  {
    hide Settle, Ended;
    SettleEnds(config, s, Accepted);
    SettleEnds(config, s, Rejected);
  }

  // ----- the story of one request

  /** The waits before attempt `k + 1`, the first being `min`. */
  function Waits(config: Config, k: nat): (waits: seq<nat>)
    ensures |waits| == k
  {
    seq(k, i requires 0 <= i < k => Wait(config, i))
  }

  /** After `k` recoverable failures the same batch is in progress, and only its waits have grown. */
  lemma {:induction false} Retried(config: Config, s: Sender, k: nat)
    requires s.flushes != [] && s.phase.Encoding? && Last(s).kept != [] && Last(s).waits == []
    ensures Possible(config, s, [Encode(true)] + seq(k, _ => Answer(Recoverable)))
    ensures Run(config, s, [Encode(true)] + seq(k, _ => Answer(Recoverable)))
      == s.(phase := Sending(Wait(config, k)),
            flushes := s.flushes[..|s.flushes| - 1] + [Last(s).(waits := Waits(config, k))])
  {
    hide Run, Possible, Next, Enabled;
    if k == 0 {
      assert [Encode(true)] + seq(0, _ => Answer(Recoverable)) == [Encode(true)];
      StartOfRequest(config, s);
    } else {
      var script := [Encode(true)] + seq(k - 1, _ => Answer(Recoverable));
      assert [Encode(true)] + seq(k, _ => Answer(Recoverable)) == script + [Answer(Recoverable)];
      Retried(config, s, k - 1);
      OneMoreFailure(config, Run(config, s, script), k - 1);
      RunOneMore(config, s, script, Answer(Recoverable));
      var t := Run(config, s, script);
      assert t.flushes[..|t.flushes| - 1] == s.flushes[..|s.flushes| - 1];
    }
  }

  lemma StartOfRequest(config: Config, s: Sender)
    requires s.flushes != [] && s.phase.Encoding? && Last(s).kept != [] && Last(s).waits == []
    ensures Possible(config, s, [Encode(true)])
    ensures Run(config, s, [Encode(true)])
      == s.(phase := Sending(Wait(config, 0)),
            flushes := s.flushes[..|s.flushes| - 1] + [Last(s).(waits := Waits(config, 0))])
  {
    RunOne(config, s, Encode(true));
    assert s.flushes == s.flushes[..|s.flushes| - 1] + [Last(s)];
    assert Waits(config, 0) == [];
  }

  lemma OneMoreFailure(config: Config, s: Sender, k: nat)
    requires s.flushes != [] && s.phase == Sending(Wait(config, k)) && Last(s).waits == Waits(config, k)
    ensures Enabled(s, Answer(Recoverable))
    ensures Next(config, s, Answer(Recoverable))
      == s.(phase := Sending(Wait(config, k + 1)),
            flushes := s.flushes[..|s.flushes| - 1] + [Last(s).(waits := Waits(config, k + 1))])
  {
    assert Waits(config, k + 1) == Waits(config, k) + [Wait(config, k)];
  }

  /** A request is tried until it is answered: however many recoverable failures come first, the
      batch stays as it was split off, is accepted when the answer is yes and rejected when it is
      no, after the waits the backoff gives. Nothing else of what was sent or queued changes. */
  lemma TriedUntilAnswered(config: Config, s: Sender, failures: nat, reply: Reply)
    requires s.flushes != [] && s.phase.Encoding? && Last(s).kept != [] && Last(s).waits == []
    requires !reply.Recoverable?
    ensures
      var script := [Encode(true)] + seq(failures, _ => Answer(Recoverable)) + [Answer(reply)];
      && Possible(config, s, script)
      && Ended(config, s, Run(config, s, script), Waits(config, failures), if reply.Ok? then Accepted else Rejected)
  {
    hide Run, Possible, Next, Ended;
    var script := [Encode(true)] + seq(failures, _ => Answer(Recoverable));
    Retried(config, s, failures);
    var t := Run(config, s, script);
    RunOneMore(config, s, script, Answer(reply));
    AnswerOutcome(config, t, reply);
    EndedSame(
      config, s, t, Next(config, t, Answer(reply)), Waits(config, failures), if reply.Ok? then Accepted else Rejected);
  }

  lemma EndedSame(config: Config, s: Sender, t: Sender, u: Sender, waits: seq<nat>, outcome: Outcome)
    requires s.flushes != []
    requires t == s.(phase := t.phase, flushes := s.flushes[..|s.flushes| - 1] + [Last(s).(waits := waits)])
    requires Ended(config, t, u, waits, outcome)
    ensures Ended(config, s, u, waits, outcome)
  {
    assert t.flushes[..|t.flushes| - 1] == s.flushes[..|s.flushes| - 1];
  }
}
