/** The remote-write handle and sender task, updated in place (`src/remote_write.rs:51-107`,
    `src/remote_write.rs:199-346`, `src/remote_write.rs:565-577`). */
module RemoteWrite {
  import opened Basics
  import opened Model
  import opened LabelLists
  import opened Patterns
  import opened Relabel
  import opened RelabelSets
  import opened SenderModel

  /** A bounded channel from the scrape loops to one sender task. */
  class Channel {
    const slots: nat
    var queue: seq<seq<TimeSeries>>
    var open: bool
    var gone: bool
    ghost var offered: nat
    ghost var dropped: nat

    constructor (slots: nat)
      ensures this.slots == slots && queue == [] && open && !gone && offered == 0 && dropped == 0
    {
      this.slots := slots;
      queue, open, gone, offered, dropped := [], true, false, 0, 0;
    }

    /** Never waits: true when the payload was refused. */
    method TrySend(payload: seq<TimeSeries>) returns (refused: bool)
      modifies `queue, `offered, `dropped
      ensures refused <==> old(|queue| >= slots || gone)
      ensures queue == if refused then old(queue) else old(queue) + [payload]
      ensures offered == old(offered) + |payload|
      ensures dropped == old(dropped) + if refused then |payload| else 0
    {
      offered := offered + |payload|;
      refused := |queue| >= slots || gone;
      if refused {
        dropped := dropped + |payload|;
      } else {
        queue := queue + [payload];
      }
    }
  }

  /** What the scrape loops hold: every batch goes to every endpoint's channel. */
  class RemoteWriteHandle {
    const channels: seq<Channel>
    var dropped: nat

    constructor (channels: seq<Channel>)
      ensures this.channels == channels && dropped == 0
    {
      this.channels := channels;
      dropped := 0;
    }

    ghost predicate Valid() {
      forall i, j | 0 <= i < j < |channels| :: channels[i] != channels[j]
    }

    /** How many of the first `n` channels refuse now. */
    ghost function Refusals(n: nat): nat
      requires n <= |channels|
      reads channels
    {
      if n == 0 then 0
      else
        Refusals(n - 1)
          + (if |channels[n - 1].queue| >= channels[n - 1].slots || channels[n - 1].gone then 1 else 0)
    }

    /** Fan a batch out: each channel takes all of it or refuses all of it on its own, and every
        refusal counts the batch's series as dropped. */
    method Send(batch: seq<TimeSeries>)
      requires Valid()
      modifies this, set i | 0 <= i < |channels| :: channels[i]
      ensures batch == [] ==> dropped == old(dropped) && forall c | c in channels :: unchanged(c)
      ensures dropped == old(dropped) + |batch| * old(Refusals(|channels|))
      ensures batch != [] ==> forall c | c in channels :: Offered(c, batch)
    {
      if batch == [] || channels == [] {
        return;
      }
      for i := 0 to |channels|
        invariant dropped == old(dropped) + |batch| * old(Refusals(i))
        invariant forall k | 0 <= k < i :: Offered(channels[k], batch)
        invariant forall k | i <= k < |channels| :: unchanged(channels[k])
      {
        var refused := channels[i].TrySend(batch);
        if refused {
          dropped := dropped + |batch|;
        }
        assert old(Refusals(i + 1)) == old(Refusals(i)) + (if refused then 1 else 0);
        assert |batch| * (old(Refusals(i)) + 1) == |batch| * old(Refusals(i)) + |batch|;
      }
    }
  }

  /** What offering a batch does to a channel, wholly taken or wholly refused. */
  twostate predicate Offered(c: Channel, batch: seq<TimeSeries>)
    reads c
  {
    var refused := old(|c.queue| >= c.slots || c.gone);
    && c.queue == (if refused then old(c.queue) else old(c.queue) + [batch])
    && c.offered == old(c.offered) + |batch|
    && c.dropped == old(c.dropped) + (if refused then |batch| else 0)
    && c.open == old(c.open) && c.gone == old(c.gone)
  }

  // ----- the vectors the task changes

  /** `retain` on series without a histogram. */
  method DropNativeHistograms(batch: seq<TimeSeries>) returns (kept: seq<TimeSeries>)
    ensures kept == WithoutHistograms(batch)
  {
    hide WithoutHistograms;
    kept := [];
    assert batch[0..] == batch;
    for i := 0 to |batch|
      invariant kept + WithoutHistograms(batch[i..]) == WithoutHistograms(batch)
    {
      WithoutHistogramsStep(batch, i);
      if batch[i].histogram.None? {
        Regroup(kept, [batch[i]], WithoutHistograms(batch[i + 1..]));
        kept := kept + [batch[i]];
      }
    }
    WithoutHistogramsStep(batch, |batch|);
    assert kept + [] == kept;
  }

  lemma WithoutHistogramsStep(batch: seq<TimeSeries>, i: nat)
    requires i <= |batch|
    ensures i < |batch| && batch[i].histogram.None? ==>
      WithoutHistograms(batch[i..]) == [batch[i]] + WithoutHistograms(batch[i + 1..])
    ensures i < |batch| && batch[i].histogram.Some? ==>
      WithoutHistograms(batch[i..]) == WithoutHistograms(batch[i + 1..])
    ensures i == |batch| ==> WithoutHistograms(batch[i..]) == []
  {
    if i < |batch| {
      assert batch[i..][1..] == batch[i + 1..];
      assert [] + WithoutHistograms(batch[i + 1..]) == WithoutHistograms(batch[i + 1..]);
    }
  }

  /** Split up to `maxSamples` leading series off: the chunk, the rest, and the chunk's size. */
  method SplitBatch(pending: seq<TimeSeries>, maxSamples: nat)
    returns (chunk: seq<TimeSeries>, rest: seq<TimeSeries>, samples: nat)
    ensures chunk + rest == pending && samples == |chunk|
    ensures |chunk| == maxSamples || (|chunk| < maxSamples && rest == [])
  {
    var cut := if maxSamples <= |pending| then maxSamples else |pending|;
    rest := pending[cut..];
    chunk := pending[..cut];
    samples := |chunk|;
  }

  /** `filter_map` through write relabeling, labels sorted again. */
  method WriteRelabel(config: Config, chunk: seq<TimeSeries>) returns (kept: seq<TimeSeries>)
    requires Lawful(config.library.engine)
    ensures kept == Kept(config, chunk)
  {
    hide Process, Lawful, SortLabels;
    if config.writeRelabelConfigs == [] {
      return chunk;
    }
    kept := [];
    assert chunk[0..] == chunk;
    for i := 0 to |chunk|
      invariant kept + RelabelEach(config, chunk[i..]) == RelabelEach(config, chunk)
    {
      assert chunk[i..][1..] == chunk[i + 1..];
      var labels := ProcessLabels(chunk[i].labels, config.writeRelabelConfigs, config.library);
      if labels.Some? {
        kept := kept + [chunk[i].(labels := SortLabels(labels.value))];
      }
    }
  }

  /** The events of one flush. */
  function FlushScript(compresses: bool, replies: seq<Reply>): (events: seq<Event>)
    ensures FlushesOnly(events)
  {
    [Encode(compresses)] + seq(|replies|, i requires 0 <= i < |replies| => Answer(replies[i]))
  }

  /** No event but those of flushes. */
  predicate FlushesOnly(events: seq<Event>) {
    forall i | 0 <= i < |events| :: events[i].Encode? || events[i].Answer?
  }

  /** The sender task between its await points. */
  class Endpoint {
    const config: Config
    const channel: Channel
    var pending: seq<TimeSeries>
    var pendingSamples: nat
    var phase: Phase
    /** The flush in progress: why it was started, and the series to send. */
    var cause: Cause
    var batch: seq<TimeSeries>
    ghost var flushes: seq<Flush>
    ghost var received: seq<TimeSeries>
    ghost var withheld: nat

    constructor (config: Config, channel: Channel)
      requires Lawful(config.library.engine) && channel.slots == config.Slots()
      requires channel.queue == [] && channel.open && !channel.gone && channel.offered == 0 && channel.dropped == 0
      ensures this.config == config && this.channel == channel
      ensures Valid() && Value() == START
    {
      this.config, this.channel := config, channel;
      pending, pendingSamples, phase, cause, batch := [], 0, Waiting, BySize, [];
      flushes, received, withheld := [], [], 0;
    }

    ghost function Value(): Sender
      reads this, channel
    {
      Sender(channel.queue, channel.open, pending, phase, flushes, channel.dropped, channel.offered, received, withheld)
    }

    ghost predicate Valid()
      reads this, channel
    {
      && Lawful(config.library.engine)
      && channel.slots == config.Slots()
      && (channel.gone <==> phase.Gone?)
      && pendingSamples == |pending|
      && (Busy(Value()) ==> flushes != [] && Last(Value()).cause == cause && Last(Value()).kept == batch)
    }

    /** Start flushing `chunk`, the leading series of what was pending. */
    method BeginFlush(chunk: seq<TimeSeries>, cause: Cause)
      requires Lawful(config.library.engine)
      modifies `phase, `cause, `batch, `flushes
      ensures phase == Encoding && this.cause == cause && batch == Kept(config, chunk)
      ensures flushes == old(flushes) + [Flush(cause, chunk, Kept(config, chunk), [], None)]
    {
      batch := WriteRelabel(config, chunk);
      phase, this.cause := Encoding, cause;
      flushes := flushes + [Flush(cause, chunk, batch, [], None)];
    }

    /** The loop condition of the receive branch. */
    method ContinueReceiving()
      requires Lawful(config.library.engine) && pendingSamples == |pending|
      modifies `pending, `pendingSamples, `phase, `cause, `batch, `flushes
      ensures pendingSamples == |pending| && Value() == Continue(config, old(Value()))
      ensures phase.Waiting?
        || (phase.Encoding? && flushes != [] && Last(Value()).cause == cause && Last(Value()).kept == batch)
    {
      hide Kept, Lawful;
      if pendingSamples >= config.maxSamplesPerSend {
        var chunk, rest, samples := SplitBatch(pending, config.maxSamplesPerSend);
        assert chunk == pending[..config.maxSamplesPerSend] && rest == pending[config.maxSamplesPerSend..];
        pending := rest;
        pendingSamples := pendingSamples - samples;
        BeginFlush(chunk, BySize);
      } else {
        phase := Waiting;
      }
    }

    method OnReceive()
      requires Valid() && Enabled(Value(), Receive)
      modifies this, channel`queue
      ensures Valid() && Value() == Next(config, old(Value()), Receive)
    {
      hide Continue, Begin, WithoutHistograms, Lawful;
      var received := channel.queue[0];
      channel.queue := channel.queue[1..];
      var sendable := received;
      if !config.sendNativeHistograms {
        sendable := DropNativeHistograms(received);
      }
      SendableIsNoLonger(config, received);
      pendingSamples := pendingSamples + |sendable|;
      pending := pending + sendable;
      this.received := this.received + sendable;
      withheld := withheld + |received| - |sendable|;
      ContinueReceiving();
    }

    /** Flush everything pending, if anything. */
    method FlushRest(cause: Cause)
      requires Valid() && phase.Waiting? && pending != []
      modifies this
      ensures Valid() && Value() == Begin(config, old(Value()), old(|pending|), cause)
    {
      hide Kept, Lawful;
      var chunk := pending;
      assert pending[..|pending|] == pending && pending[|pending|..] == [];
      pending := [];
      pendingSamples := 0;
      BeginFlush(chunk, cause);
    }

    method OnTick()
      requires Valid() && Enabled(Value(), Tick)
      modifies this
      ensures Valid() && Value() == Next(config, old(Value()), Tick)
    {
      hide Begin;
      if pending != [] {
        FlushRest(ByDeadline);
      }
    }

    method OnClose()
      requires Valid() && Enabled(Value(), Close)
      modifies this
      ensures Valid() && Value() == Next(config, old(Value()), Close)
    {
      hide Begin;
      if pending != [] {
        FlushRest(ByClose);
      } else {
        phase := Stopped;
      }
    }

    /** The flush in progress is over; the task goes on where it was started from. */
    method Finish(outcome: Outcome)
      requires Valid() && Busy(Value())
      modifies this
      ensures Valid() && Value() == Settle(config, old(Value()), outcome)
    {
      hide Continue, Lawful;
      flushes := WithLast(Value(), Last(Value()).(outcome := Some(outcome))).flushes;
      match cause
      case BySize => ContinueReceiving();
      case ByDeadline => phase := Waiting;
      case ByClose => phase := Stopped;
    }

    /** Encode and compress what relabeling kept. */
    method OnEncode(compresses: bool)
      requires Valid() && Enabled(Value(), Encode(compresses))
      modifies this
      ensures Valid() && Value() == Next(config, old(Value()), Encode(compresses))
    {
      hide Settle;
      if batch == [] {
        Finish(Emptied);
      } else if !compresses {
        Finish(Uncompressible);
      } else {
        phase := Sending(config.minBackoff);
      }
    }

    /** One attempt of the retry loop, and the wait after a recoverable failure. */
    method OnAnswer(reply: Reply)
      requires Valid() && Enabled(Value(), Answer(reply))
      modifies this
      ensures Valid() && Value() == Next(config, old(Value()), Answer(reply))
    {
      hide Settle;
      match reply
      case Ok => Finish(Accepted);
      case Unrecoverable => Finish(Rejected);
      case Recoverable =>
        flushes := WithLast(Value(), Last(Value()).(waits := Last(Value()).waits + [phase.backoff])).flushes;
        phase := Sending(Min(phase.backoff * 2, config.maxBackoff));
    }

    /** `flush` from encoding on, as far as `replies` go: the retry loop around one attempt and
        one wait. Says how many replies it used. */
    method FlushChunk(compresses: bool, replies: seq<Reply>) returns (used: nat)
      requires Valid() && phase.Encoding?
      modifies this
      ensures Valid() && used <= |replies|
      ensures phase.Sending? ==> used == |replies|
      ensures Possible(config, old(Value()), FlushScript(compresses, replies[..used]))
      ensures Value() == Run(config, old(Value()), FlushScript(compresses, replies[..used]))
    {
      hide Next, Enabled, Valid, Value, Run, Possible;
      EncodingIsEnabled(compresses);
      RunOne(config, Value(), Encode(compresses));
      OnEncode(compresses);
      used := 0;
      assert FlushScript(compresses, replies[..0]) == [Encode(compresses)];
      while phase.Sending? && used < |replies|
        invariant Valid() && used <= |replies|
        invariant Possible(config, old(Value()), FlushScript(compresses, replies[..used]))
        invariant Value() == Run(config, old(Value()), FlushScript(compresses, replies[..used]))
        decreases |replies| - used
      {
        SendingIsEnabled(replies[used]);
        RunOneMore(config, old(Value()), FlushScript(compresses, replies[..used]), Answer(replies[used]));
        assert FlushScript(compresses, replies[..used + 1])
          == FlushScript(compresses, replies[..used]) + [Answer(replies[used])];
        OnAnswer(replies[used]);
        used := used + 1;
      }
    }

    lemma EncodingIsEnabled(compresses: bool)
      requires Valid() && phase.Encoding?
      ensures Enabled(Value(), Encode(compresses))
    {
    }

    lemma SendingIsEnabled(reply: Reply)
      requires Valid() && phase.Sending?
      ensures Enabled(Value(), Answer(reply))
    {
    }

    /** The receive branch with its flush loop: chunks are split off and flushed one after the
        other while the bound is reached, as far as `flights`, the fates of the chunks, go. */
    method ReceiveBranch(flights: seq<(bool, seq<Reply>)>) returns (flushed: nat, ghost events: seq<Event>)
      requires Valid() && Enabled(Value(), Receive)
      modifies this, channel`queue
      ensures Valid() && flushed <= |flights|
      ensures phase.Encoding? ==> flushed == |flights|
      ensures Possible(config, old(Value()), [Receive] + events)
      ensures Value() == Run(config, old(Value()), [Receive] + events)
      ensures FlushesOnly(events)
    {
      hide Next, Enabled, Valid, Value, Run, Possible;
      RunOne(config, Value(), Receive);
      OnReceive();
      flushed, events := 0, [];
      assert [Receive] + events == [Receive];
      while phase.Encoding? && flushed < |flights|
        invariant Valid() && flushed <= |flights|
        invariant Possible(config, old(Value()), [Receive] + events)
        invariant Value() == Run(config, old(Value()), [Receive] + events)
        invariant FlushesOnly(events)
        decreases |flights| - flushed
      {
        ghost var before := Value();
        var (compresses, replies) := flights[flushed];
        var used := FlushChunk(compresses, replies);
        ghost var script := FlushScript(compresses, replies[..used]);
        RunMore(config, old(Value()), [Receive] + events, script);
        assert [Receive] + (events + script) == ([Receive] + events) + script;
        events := events + script;
        flushed := flushed + 1;
      }
    }

    /** One event, from whichever side. */
    method Step(e: Event)
      requires Valid() && Enabled(Value(), e)
      modifies this, channel
      ensures Valid() && Value() == Next(config, old(Value()), e)
    {
      hide Settle, Continue, Begin, Lawful;
      match e
      case Offer(series) =>
        if series != [] {
          var _ := channel.TrySend(series);
        }
      case DropHandles => channel.open := false;
      case Receive => OnReceive();
      case Tick => OnTick();
      case Close => OnClose();
      case Encode(compresses) => OnEncode(compresses);
      case Answer(reply) => OnAnswer(reply);
      case Die =>
        phase := Gone;
        channel.gone := true;
    }

    /** Any possible sequence of events takes the task where the state machine goes. */
    method Play(events: seq<Event>)
      requires Valid() && Possible(config, Value(), events)
      modifies this, channel
      ensures Valid() && Value() == Run(config, old(Value()), events)
    {
      hide Next, Enabled, Valid, Value;
      assert events[0..] == events;
      for i := 0 to |events|
        invariant Valid() && Possible(config, Value(), events[i..])
        invariant Run(config, Value(), events[i..]) == Run(config, old(Value()), events)
      {
        assert events[i..][0] == events[i] && events[i..][1..] == events[i + 1..];
        Step(events[i]);
      }
    }
  }
}
