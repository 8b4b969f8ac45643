/** The two modes without an order: whatever arrives is delivered, as it comes. And
    what every mode counts. */
module UnorderedDelivery {
  import opened Wrappers
  import opened SequenceNumbers
  import opened Channels

  /** What follows the two bytes of the number, or the whole of a shorter message. */
  function PayloadOf(wire: Bytes): Bytes { if |wire| < 2 then wire else wire[2..] }

  function Payloads(wires: seq<Bytes>): seq<Bytes> {
    if wires == [] then [] else Payloads(wires[..|wires| - 1]) + [PayloadOf(wires[|wires| - 1])]
  }

  /** The bytes that follow a number; a message too short to have one is not counted. */
  function NumberedBytes(wires: seq<Bytes>): nat {
    if wires == [] then 0
    else NumberedBytes(wires[..|wires| - 1]) + if |wires[|wires| - 1]| < 2 then 0 else |wires[|wires| - 1]| - 2
  }

  ghost predicate IsRun(config: ChannelConfig, run: seq<Receiving>, wires: seq<Bytes>, times: seq<Instant>) {
    && |run| == |wires| + 1 && |times| == |wires| && run[0] == NEW_RECEIVING
    && forall i :: 0 <= i < |wires| ==> Receives(config, run[i], wires[i], times[i], run[i + 1])
  }

  lemma StepDelivers(config: ChannelConfig, r: Receiving, wire: Bytes, now: Instant, r': Receiving)
    requires config.deliveryMode.Unreliable? || config.deliveryMode.ReliableUnordered?
    requires Receives(config, r, wire, now, r')
    ensures r'.deliveryQueue == r.deliveryQueue + [PayloadOf(wire)]
    ensures r'.messagesReceived == r.messagesReceived + 1
    ensures r'.orderedBuffer == r.orderedBuffer && r'.messagesDropped == r.messagesDropped
    ensures r'.gapSequencesSkipped == r.gapSequencesSkipped
  {
  }

  /** Without an order everything that arrives is delivered, in the order it comes,
      repeats and late messages included, and nothing is held back. */
  lemma {:induction false} DeliversEverything(config: ChannelConfig, run: seq<Receiving>, wires: seq<Bytes>,
                                              times: seq<Instant>, n: nat)
    requires config.deliveryMode.Unreliable? || config.deliveryMode.ReliableUnordered?
    requires IsRun(config, run, wires, times) && n <= |wires|
    ensures run[n].deliveryQueue == Payloads(wires[..n]) && run[n].messagesReceived == n
    ensures run[n].orderedBuffer == map[] && run[n].messagesDropped == run[n].gapSequencesSkipped == 0
  {
    hide Receives;
    if n > 0 {
      DeliversEverything(config, run, wires, times, n - 1);
      assert wires[..n][..n - 1] == wires[..n - 1];
      StepDelivers(config, run[n - 1], wires[n - 1], times[n - 1], run[n]);
    }
  }

  /** A message too short to have a number is delivered whole in every mode, and
      touches nothing else. */
  lemma ShortIsDelivered(config: ChannelConfig, r: Receiving, wire: Bytes, now: Instant, r': Receiving)
    requires |wire| < 2 && Receives(config, r, wire, now, r')
    ensures r' == r.(deliveryQueue := r.deliveryQueue + [wire], messagesReceived := r.messagesReceived + 1)
  {
  }

  // ---------- what every mode counts ----------

  lemma {:induction false} DrainKeepsBytes(r: Receiving)
    ensures Drain(r).bytesReceived == r.bytesReceived
    decreases |r.orderedBuffer|
  {
    if r.receiveSequence in r.orderedBuffer {
      RemovalShrinks(r.orderedBuffer, r.receiveSequence);
      DrainKeepsBytes(DeliveredNext(r));
    }
  }

  lemma EvictingKeepsBytes(r: Receiving, r': Receiving)
    requires Evicts(r, r')
    ensures r'.bytesReceived == r.bytesReceived
  {
    if r.orderedBuffer != map[] {
      var k :| IsOldest(r.orderedBuffer, k) && r' == EvictedKey(r, k);
      var gone := r.(orderedBuffer := r.orderedBuffer - {k}, gapSequencesSkipped := r.gapSequencesSkipped + 1,
                     messagesDropped := r.messagesDropped + 1);
      DrainKeepsBytes(Advanced(gone));
      hide Drain;
    }
  }

  lemma StepCounts(config: ChannelConfig, r: Receiving, wire: Bytes, now: Instant, r': Receiving)
    requires Receives(config, r, wire, now, r')
    ensures r'.bytesReceived == r.bytesReceived + if |wire| < 2 then 0 else |wire| - 2
  {
    if |wire| >= 2 && config.deliveryMode.ReliableOrdered? {
      var sequence, data := WireSequence(wire), wire[2..];
      var counted := r.(bytesReceived := r.bytesReceived + |data|);
      DrainKeepsBytes(Advanced(Delivered(counted, data)));
      hide Drain, GreaterThan, Evicts;
      if sequence != r.receiveSequence && GreaterThan(sequence, r.receiveSequence) {
        var room :| MakesRoom(config, counted, room) && r' == Held(room, sequence, data, now);
        if |counted.orderedBuffer| >= config.maxOrderedBufferSize { EvictingKeepsBytes(counted, room); }
      }
    }
  }

  /** The bytes counted are those after the numbers of all that arrived, in every
      mode, delivered or not. */
  lemma {:induction false} CountsAllBytes(config: ChannelConfig, run: seq<Receiving>, wires: seq<Bytes>,
                                          times: seq<Instant>, n: nat)
    requires IsRun(config, run, wires, times) && n <= |wires|
    ensures run[n].bytesReceived == NumberedBytes(wires[..n])
  {
    hide Receives;
    if n > 0 {
      CountsAllBytes(config, run, wires, times, n - 1);
      assert wires[..n][..n - 1] == wires[..n - 1];
      StepCounts(config, run[n - 1], wires[n - 1], times[n - 1], run[n]);
    }
  }
}
