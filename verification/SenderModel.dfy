/**
 The remote-write sender of one endpoint as a state machine (`src/remote_write.rs:60-107`,
 `src/remote_write.rs:199-346`, `src/remote_write.rs:565-577`). A step ends where the task can
 be suspended, so scrape loops may offer batches between any two of its steps.
 */
module SenderModel {
  import opened Basics
  import opened Model
  import opened LabelLists
  import opened Relabel

  datatype Config = Config(
    capacity: nat,
    sendNativeHistograms: bool,
    writeRelabelConfigs: seq<RelabelConfig>,
    library: Library,
    maxSamplesPerSend: nat,
    minBackoff: nat,
    maxBackoff: nat)
  {
    /** What loading the configuration checks. */
    predicate Valid() {
      maxSamplesPerSend != 0
    }

    /** The queue is bounded in batches, its configured capacity is in samples. */
    function Slots(): nat {
      Max(capacity / 100, 16)
    }
  }

  /** Why a chunk was split off. */
  datatype Cause = BySize | ByDeadline | ByClose

  /** How a chunk ends: nothing left after write relabeling, not compressible, or as replied. */
  datatype Outcome = Emptied | Uncompressible | Accepted | Rejected

  /** A chunk split off `pending`, what write relabeling kept of it, the waits between its
      attempts so far, and its outcome once it has one. */
  datatype Flush = Flush(
    cause: Cause, chunk: seq<TimeSeries>, kept: seq<TimeSeries>, waits: seq<nat>, outcome: Option<Outcome>)

  datatype Phase =
    | Waiting
    | Encoding
    | Sending(backoff: nat)
    | Stopped
    | Gone

  /** The task and its queue; `flushes` is the history, whose last entry is the one in progress
      while encoding or sending. `offered`, `received` and `withheld` are history too. */
  datatype Sender = Sender(
    queue: seq<seq<TimeSeries>>,
    open: bool,
    pending: seq<TimeSeries>,
    phase: Phase,
    flushes: seq<Flush>,
    dropped: nat,
    offered: nat,
    received: seq<TimeSeries>,
    withheld: nat)

  const START := Sender([], true, [], Waiting, [], 0, 0, [], 0)

  datatype Reply = Ok | Unrecoverable | Recoverable

  datatype Event =
    | Offer(batch: seq<TimeSeries>)
    | DropHandles
    | Receive
    | Tick
    | Close
    | Encode(compresses: bool)
    | Answer(reply: Reply)
    | Die

  /** `drop_native_histograms` */
  function WithoutHistograms(batch: seq<TimeSeries>): seq<TimeSeries> {
    if batch == [] then []
    else (if batch[0].histogram.None? then [batch[0]] else []) + WithoutHistograms(batch[1..])
  }

  function Sendable(config: Config, batch: seq<TimeSeries>): seq<TimeSeries> {
    if config.sendNativeHistograms then batch else WithoutHistograms(batch)
  }

  /** Write relabeling of a chunk; kept series are sorted again. */
  function RelabelEach(config: Config, chunk: seq<TimeSeries>): seq<TimeSeries> {
    if chunk == [] then []
    else
      (match Process(chunk[0].labels, config.writeRelabelConfigs, config.library)
       case Some(labels) => [chunk[0].(labels := SortLabels(labels))]
       case None => []) + RelabelEach(config, chunk[1..])
  }

  function Kept(config: Config, chunk: seq<TimeSeries>): seq<TimeSeries> {
    if config.writeRelabelConfigs == [] then chunk else RelabelEach(config, chunk)
  }

  /** Split `n` leading series off `pending` and begin to flush them. */
  function Begin(config: Config, s: Sender, n: nat, cause: Cause): Sender
    requires n <= |s.pending|
  {
    var chunk := s.pending[..n];
    s.(pending := s.pending[n..],
       phase := Encoding,
       flushes := s.flushes + [Flush(cause, chunk, Kept(config, chunk), [], None)])
  }

  /** The end of the receive branch: flush while there is enough, else wait. */
  function Continue(config: Config, s: Sender): Sender {
    if |s.pending| >= config.maxSamplesPerSend then Begin(config, s, config.maxSamplesPerSend, BySize)
    else s.(phase := Waiting)
  }

  function Last(s: Sender): Flush
    requires s.flushes != []
  {
    s.flushes[|s.flushes| - 1]
  }

  function WithLast(s: Sender, flush: Flush): Sender
    requires s.flushes != []
  {
    s.(flushes := s.flushes[..|s.flushes| - 1] + [flush])
  }

  /** The flush in progress ends; the task resumes after the await. */
  function Settle(config: Config, s: Sender, outcome: Outcome): Sender
    requires s.flushes != []
  {
    var settled := WithLast(s, Last(s).(outcome := Some(outcome)));
    match Last(s).cause
    case BySize => Continue(config, settled)
    case ByDeadline => settled.(phase := Waiting)
    case ByClose => settled.(phase := Stopped)
  }

  /** A bounded queue refuses when it is full or its task is gone. */
  predicate Refuses(slots: nat, queue: seq<seq<TimeSeries>>, gone: bool) {
    |queue| >= slots || gone
  }

  predicate Busy(s: Sender) {
    s.phase.Encoding? || s.phase.Sending?
  }

  /** Receive and tick race while the task waits; `recv` ends once all handles are gone and the
      queue is empty. */
  predicate Enabled(s: Sender, e: Event) {
    match e
    case Offer(_) => s.open
    case DropHandles => s.open
    case Receive => s.phase.Waiting? && s.queue != []
    case Tick => s.phase.Waiting?
    case Close => s.phase.Waiting? && s.queue == [] && !s.open
    case Encode(_) => s.phase.Encoding? && s.flushes != []
    case Answer(_) => s.phase.Sending? && s.flushes != []
    case Die => !s.phase.Stopped? && !s.phase.Gone?
  }

  function Next(config: Config, s: Sender, e: Event): Sender
    requires Enabled(s, e)
  {
    match e
    case Offer(batch) =>
      if batch == [] then s
      else if Refuses(config.Slots(), s.queue, s.phase.Gone?) then
        s.(offered := s.offered + |batch|, dropped := s.dropped + |batch|)
      else s.(offered := s.offered + |batch|, queue := s.queue + [batch])
    case DropHandles => s.(open := false)
    case Receive =>
      var batch := s.queue[0];
      var sendable := Sendable(config, batch);
      SendableIsNoLonger(config, batch);
      Continue(config, s.(
        queue := s.queue[1..],
        pending := s.pending + sendable,
        received := s.received + sendable,
        withheld := s.withheld + |batch| - |sendable|))
    case Tick => if s.pending == [] then s else Begin(config, s, |s.pending|, ByDeadline)
    case Close => if s.pending == [] then s.(phase := Stopped) else Begin(config, s, |s.pending|, ByClose)
    case Encode(compresses) =>
      if Last(s).kept == [] then Settle(config, s, Emptied)
      else if !compresses then Settle(config, s, Uncompressible)
      else s.(phase := Sending(config.minBackoff))
    case Answer(reply) =>
      (match reply
       case Ok => Settle(config, s, Accepted)
       case Unrecoverable => Settle(config, s, Rejected)
       case Recoverable =>
         WithLast(s, Last(s).(waits := Last(s).waits + [s.phase.backoff]))
           .(phase := Sending(Min(s.phase.backoff * 2, config.maxBackoff))))
    case Die => s.(phase := Gone)
  }

  lemma {:induction false} WithoutHistogramsIsNoLonger(batch: seq<TimeSeries>)
    ensures |WithoutHistograms(batch)| <= |batch|
  {
    if batch != [] {
      WithoutHistogramsIsNoLonger(batch[1..]);
    }
  }

  lemma SendableIsNoLonger(config: Config, batch: seq<TimeSeries>)
    ensures |Sendable(config, batch)| <= |batch|
  {
    WithoutHistogramsIsNoLonger(batch);
  }

  lemma {:induction false} KeptIsNoLonger(config: Config, chunk: seq<TimeSeries>)
    ensures |Kept(config, chunk)| <= |chunk|
  {
    RelabelEachIsNoLonger(config, chunk);
  }

  lemma {:induction false} RelabelEachIsNoLonger(config: Config, chunk: seq<TimeSeries>)
    ensures |RelabelEach(config, chunk)| <= |chunk|
  {
    hide Process, SortLabels;
    if chunk != [] {
      RelabelEachIsNoLonger(config, chunk[1..]);
    }
  }

  /** `events` can happen one after the other from `s`. */
  predicate Possible(config: Config, s: Sender, events: seq<Event>)
    decreases |events|
  {
    events == [] || (Enabled(s, events[0]) && Possible(config, Next(config, s, events[0]), events[1..]))
  }

  function Run(config: Config, s: Sender, events: seq<Event>): Sender
    requires Possible(config, s, events)
    decreases |events|
  {
    if events == [] then s else Run(config, Next(config, s, events[0]), events[1..])
  }

  lemma RunOne(config: Config, s: Sender, e: Event)
    requires Enabled(s, e)
    ensures Possible(config, s, [e]) && Run(config, s, [e]) == Next(config, s, e)
  {
    hide Next, Enabled;
    assert [e][1..] == [];
  }

  /** Runs end to end. */
  lemma {:induction false} RunMore(config: Config, s: Sender, first: seq<Event>, more: seq<Event>)
    requires Possible(config, s, first) && Possible(config, Run(config, s, first), more)
    ensures Possible(config, s, first + more)
    ensures Run(config, s, first + more) == Run(config, Run(config, s, first), more)
    decreases |first|
  {
    hide Next, Enabled;
    if first == [] {
      assert first + more == more;
    } else {
      assert (first + more)[1..] == first[1..] + more && (first + more)[0] == first[0];
      RunMore(config, Next(config, s, first[0]), first[1..], more);
    }
  }

  lemma RunOneMore(config: Config, s: Sender, events: seq<Event>, e: Event)
    requires Possible(config, s, events) && Enabled(Run(config, s, events), e)
    ensures Possible(config, s, events + [e])
    ensures Run(config, s, events + [e]) == Next(config, Run(config, s, events), e)
  {
    hide Next, Enabled, Run, Possible;
    RunOne(config, Run(config, s, events), e);
    RunMore(config, s, events, [e]);
  }
}
