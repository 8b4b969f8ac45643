/** What a channel takes to send and how much it queues, over runs of its sending
    half. */
module SendQueue {
  import opened Wrappers
  import opened Channels
  import opened Retransmission

  /** A message is taken if it is not too large and, on a channel that blocks, there
      is room for it. */
  predicate Takes(config: ChannelConfig, s: Sending, data: Bytes) {
    |data| <= config.maxMessageSize && (config.blockOnFull ==> |s.sendBuffer| < config.messageBufferSize)
  }

  /** A message that is not taken is refused for its size first, and leaves all as it
      was. */
  lemma RefusedIffNotTaken(config: ChannelConfig, s: Sending, data: Bytes, reliable: bool)
    ensures var (s', r) := AfterSend(config, s, data, reliable);
      && (r == Pass <==> Takes(config, s, data))
      && (r != Pass ==> s' == s && r == Fail(if |data| > config.maxMessageSize then MessageTooLarge else BufferFull))
  {
  }

  /** A limit of zero still queues one message where nothing blocks. */
  function Room(config: ChannelConfig): nat {
    if config.messageBufferSize == 0 && !config.blockOnFull then 1 else config.messageBufferSize
  }

  ghost function CountTaken(config: ChannelConfig, run: seq<Sending>, events: seq<Event>, n: nat): nat
    requires n <= |events| < |run|
  {
    if n == 0 then 0
    else
      CountTaken(config, run, events, n - 1)
        + if events[n - 1].Send? && Takes(config, run[n - 1], events[n - 1].data) then 1 else 0
  }

  ghost function BytesTaken(config: ChannelConfig, run: seq<Sending>, events: seq<Event>, n: nat): nat
    requires n <= |events| < |run|
  {
    if n == 0 then 0
    else
      BytesTaken(config, run, events, n - 1)
        + if events[n - 1].Send? && Takes(config, run[n - 1], events[n - 1].data) then |events[n - 1].data| else 0
  }

  ghost function CountOut(run: seq<Sending>, events: seq<Event>, n: nat): nat
    requires n <= |events| < |run|
  {
    if n == 0 then 0
    else CountOut(run, events, n - 1) + if events[n - 1].Outgoing? && run[n - 1].sendBuffer != [] then 1 else 0
  }

  lemma StepQueues(config: ChannelConfig, s: Sending, e: Event, s': Sending)
    requires Step(config, s, e, s') && |s.sendBuffer| <= Room(config)
    requires forall i :: 0 <= i < |s.sendBuffer| ==> |s.sendBuffer[i].data| <= config.maxMessageSize
    ensures forall i :: 0 <= i < |s'.sendBuffer| ==> |s'.sendBuffer[i].data| <= config.maxMessageSize
    ensures var taken := e.Send? && Takes(config, s, e.data);
      var out := e.Outgoing? && s.sendBuffer != [];
      && |s'.sendBuffer| == (if taken then if |s.sendBuffer| < Room(config) then |s.sendBuffer| + 1 else Room(config)
                             else if out then |s.sendBuffer| - 1 else |s.sendBuffer|)
      && s'.messagesSent == s.messagesSent + (if taken then 1 else 0)
      && s'.bytesSent == s.bytesSent + (if taken then |e.data| else 0)
  {
    hide Due, Retransmits;
  }

  /** The queue never holds more than its limit nor a message over the size limit,
      and the counters are of the messages taken. On a channel that blocks none of
      these is lost before it goes out. */
  lemma {:induction false} QueueHoldsWhatIsTaken(config: ChannelConfig, run: seq<Sending>, events: seq<Event>, n: nat)
    requires IsRun(config, run, events) && run[0] == NEW_SENDING && n <= |events|
    ensures var s := run[n];
      && |s.sendBuffer| <= Room(config)
      && (forall i :: 0 <= i < |s.sendBuffer| ==> |s.sendBuffer[i].data| <= config.maxMessageSize)
      && s.messagesSent == CountTaken(config, run, events, n) && s.bytesSent == BytesTaken(config, run, events, n)
      && (config.blockOnFull ==> |s.sendBuffer| + CountOut(run, events, n) == CountTaken(config, run, events, n))
  {
    hide Step;
    if n > 0 {
      QueueHoldsWhatIsTaken(config, run, events, n - 1);
      assert Step(config, run[n - 1], events[n - 1], run[n]);
      StepQueues(config, run[n - 1], events[n - 1], run[n]);
    }
  }

  /** Where nothing blocks a message too many pushes out the oldest, and only then:
      every message taken leaves the queue one longer, up to its limit, with itself at
      the end. */
  lemma FullQueueLosesOldest(config: ChannelConfig, s: Sending, data: Bytes, reliable: bool)
    requires Takes(config, s, data) && |s.sendBuffer| <= Room(config)
    ensures var queue, queue' := s.sendBuffer, AfterSend(config, s, data, reliable).0.sendBuffer;
      && queue' != [] && queue'[|queue'| - 1].data == data && queue'[|queue'| - 1].reliable == reliable
      && queue'[..|queue'| - 1] == if |queue| < Room(config) then queue else queue[1..]
  {
  }
}
