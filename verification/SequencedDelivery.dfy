/** The two sequenced modes: of everything that arrives, exactly the messages
    newer than all before them are delivered. */
module SequencedDelivery {
  import opened Wrappers
  import opened SequenceNumbers
  import opened Channels
  import OrderedDelivery

  /** A message with the unbounded number its wire number stands for. */
  datatype Arrival = Arrival(n: nat, data: Bytes)

  /** The left-to-right maxima: each arrival newer than every one before it. */
  function Records(arrivals: seq<Arrival>): seq<Bytes> {
    if arrivals == [] then []
    else
      var before, last := arrivals[..|arrivals| - 1], arrivals[|arrivals| - 1];
      if forall a :: a in before ==> a.n < last.n then Records(before) + [last.data] else Records(before)
  }

  function Newest(arrivals: seq<Arrival>): (n: nat)
    requires arrivals != []
    ensures exists a :: a in arrivals && a.n == n
    ensures forall a :: a in arrivals ==> a.n <= n
  {
    if |arrivals| == 1 then arrivals[0].n
    else
      var before, last := arrivals[..|arrivals| - 1], arrivals[|arrivals| - 1];
      assert forall a :: a in arrivals ==> a in before || a == last;
      if Newest(before) < last.n then last.n else Newest(before)
  }

  /** Each arrival is less than half the space from the newest one before it,
      which is the one last delivered. */
  ghost predicate WithinHalfRange(arrivals: seq<Arrival>) {
    forall i :: 0 < i < |arrivals| ==> -HALF_RANGE < arrivals[i].n - Newest(arrivals[..i]) < HALF_RANGE
  }

  ghost predicate IsRun(config: ChannelConfig, run: seq<Receiving>, arrivals: seq<Arrival>, times: seq<Instant>) {
    && |run| == |arrivals| + 1 && |times| == |arrivals| && run[0] == NEW_RECEIVING
    && forall i :: 0 <= i < |arrivals| ==>
         Receives(config, run[i], Wire(Wrap(arrivals[i].n), arrivals[i].data), times[i], run[i + 1])
  }

  /** What one arrival does, given the newest number before it, if any. */
  lemma StepEffect(config: ChannelConfig, r: Receiving, newest: nat, n: nat, data: Bytes, now: Instant, r': Receiving)
    requires config.deliveryMode.IsSequenced() && Receives(config, r, Wire(Wrap(n), data), now, r')
    requires r.messagesReceived > 0 ==> r.lastReceivedSequence == Wrap(newest) && -HALF_RANGE < n - newest < HALF_RANGE
    ensures var taken := r.messagesReceived == 0 || newest < n;
            && r'.deliveryQueue == (if taken then r.deliveryQueue + [data] else r.deliveryQueue)
            && r'.messagesReceived == r.messagesReceived + (if taken then 1 else 0)
            && r'.lastReceivedSequence == (if taken then Wrap(n) else r.lastReceivedSequence)
  {
    OrderedDelivery.WireParts(Wrap(n), data);
    if r.messagesReceived > 0 { AgreesWithinHalfRange(n, newest); }
  }

  lemma RunPrefix(config: ChannelConfig, run: seq<Receiving>, arrivals: seq<Arrival>, times: seq<Instant>)
    requires IsRun(config, run, arrivals, times) && arrivals != []
    ensures var k := |arrivals| - 1;
            && IsRun(config, run[..k + 1], arrivals[..k], times[..k]) && run[..k + 1][k] == run[k]
            && Receives(config, run[k], Wire(Wrap(arrivals[k].n), arrivals[k].data), times[k], run[k + 1])
  {
    hide Receives, Wire, Wrap;
  }

  lemma RangePrefix(arrivals: seq<Arrival>)
    requires WithinHalfRange(arrivals) && arrivals != []
    ensures var k := |arrivals| - 1;
            && WithinHalfRange(arrivals[..k])
            && (k > 0 ==> -HALF_RANGE < arrivals[k].n - Newest(arrivals[..k]) < HALF_RANGE)
  {
    hide Newest;
    var before := arrivals[..|arrivals| - 1];
    forall i | 0 < i < |before|
      ensures -HALF_RANGE < before[i].n - Newest(before[..i]) < HALF_RANGE
    {
      assert before[..i] == arrivals[..i];
    }
  }

  /** The delivered list is the left-to-right maxima of what arrived, through
      any number of wraps. */
  lemma {:induction false} DeliversRecords(config: ChannelConfig, run: seq<Receiving>, arrivals: seq<Arrival>,
                                           times: seq<Instant>)
    requires config.deliveryMode.IsSequenced() && WithinHalfRange(arrivals)
    requires IsRun(config, run, arrivals, times)
    ensures var r := run[|arrivals|];
            && r.deliveryQueue == Records(arrivals) && r.messagesReceived == |Records(arrivals)|
            && (arrivals != [] ==> r.messagesReceived > 0 && r.lastReceivedSequence == Wrap(Newest(arrivals)))
    decreases |arrivals|
  {
    if arrivals != [] {
      var k := |arrivals| - 1;
      var before, last := arrivals[..k], arrivals[k];
      RunPrefix(config, run, arrivals, times);
      RangePrefix(arrivals);
      hide IsRun, WithinHalfRange, Receives, Wire, Wrap;
      DeliversRecords(config, run[..k + 1], before, times[..k]);
      var newest := if k > 0 then Newest(before) else 0;
      StepEffect(config, run[k], newest, last.n, last.data, times[k], run[k + 1]);
    }
  }

  /** The distance above cannot be widened: of the messages less than the whole
      space from the one last delivered, the ones rightly delivered, or rightly
      not, are those less than half of it away, and at exactly half one of the two
      sides. */
  lemma RangeIsTight(config: ChannelConfig, r: Receiving, newest: nat, n: nat, data: Bytes, now: Instant, r': Receiving)
    requires config.deliveryMode.IsSequenced() && r.messagesReceived > 0 && r.lastReceivedSequence == Wrap(newest)
    requires -FULL_RANGE < n - newest < FULL_RANGE && Receives(config, r, Wire(Wrap(n), data), now, r')
    ensures r'.deliveryQueue
         == if GreaterThan(Wrap(n), Wrap(newest)) then r.deliveryQueue + [data] else r.deliveryQueue
    ensures (r'.deliveryQueue == r.deliveryQueue + [data] <==> n > newest) <==> Unambiguous(n, newest)
  {
    OrderedDelivery.WireParts(Wrap(n), data);
    ComparesRightlyIff(n, newest);
  }
}
