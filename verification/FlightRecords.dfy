/** What becomes of the packets in flight, told from the sends and acknowledgements
    alone: which record is given up, and what an acknowledgement takes from those it
    names. */
module FlightRecords {
  import opened Wrappers
  import opened SequenceNumbers
  import opened Bits
  import opened AckWindow
  import opened InFlight
  import RttEstimator

  /** The packet last sent under a number. */
  function LastSent(events: seq<Event>, k: u16): Option<SentPacket> {
    if events == [] then None
    else
      var e := events[|events| - 1];
      if e.Send? && e.sequence == k then Some(e.packet) else LastSent(events[..|events| - 1], k)
  }

  lemma LastSentNext(events: seq<Event>, e: Event, k: u16)
    ensures LastSent(events + [e], k) == if e.Send? && e.sequence == k then Some(e.packet) else LastSent(events, k)
  {
    assert (events + [e])[..|events|] == events;
  }

  predicate SamePacket(p: SentPacket, q: SentPacket) {
    && p.channelId == q.channelId && p.channelSequence == q.channelSequence
    && p.sendTime == q.sendTime && p.size == q.size
  }

  /** A record in flight is of the packet last sent under its number. */
  ghost predicate Recorded(sent: map<u16, SentPacket>, events: seq<Event>) {
    forall k :: k in sent ==> LastSent(events, k).Some? && SamePacket(sent[k], LastSent(events, k).value)
  }

  lemma SendRecords(maxInFlight: nat, o: Outbound, k: u16, p: SentPacket, o': Outbound)
    requires Sends(maxInFlight, o, k, p, o')
    ensures forall j :: j in o'.sent ==> if j == k then o'.sent[j] == p else j in o.sent && o'.sent[j] == o.sent[j]
  {
    hide IsOldest;
  }

  lemma AcksRecords(o: Outbound, ack: u16, bits: u64, now: Instant)
    requires GoodRing(o)
    ensures var o' := AfterAcks(o, ack, bits, now);
      forall j :: j in o'.sent ==> j in o.sent && SamePacket(o'.sent[j], o.sent[j])
  {
    AfterAcksEffect(o, ack, bits, now);
    hide AfterAcks, AckOrder, Missed;
  }

  lemma StepRecords(maxInFlight: nat, o: Outbound, before: seq<Event>, e: Event, o': Outbound)
    requires Step(maxInFlight, o, e, o') && Recorded(o.sent, before)
    ensures Recorded(o'.sent, before + [e])
  {
    forall k ensures LastSent(before + [e], k)
      == if e.Send? && e.sequence == k then Some(e.packet) else LastSent(before, k)
    {
      LastSentNext(before, e, k);
    }
    hide LastSent, AfterAcks, Sends;
    match e
    case Send(k, p) => SendRecords(maxInFlight, o, k, p, o');
    case Acks(ack, bits, now) => AcksRecords(o, ack, bits, now);
  }

  lemma {:induction false} RunRecords(maxInFlight: nat, run: seq<Outbound>, events: seq<Event>, n: nat)
    requires IsRun(maxInFlight, run, events) && run[0] == NewOutbound() && n <= |events|
    ensures Recorded(run[n].sent, events[..n])
  {
    hide Step, Recorded;
    if n == 0 {
      NothingRecorded();
    } else {
      RunRecords(maxInFlight, run, events, n - 1);
      assert Step(maxInFlight, run[n - 1], events[n - 1], run[n]);
      assert events[..n] == events[..n - 1] + [events[n - 1]];
      StepRecords(maxInFlight, run[n - 1], events[..n - 1], events[n - 1], run[n]);
    }
  }

  lemma NothingRecorded()
    ensures Recorded(NewOutbound().sent, [])
  {
  }

  // ---------- what is given up ----------

  predicate SentNoLater(events: seq<Event>, k: u16, j: u16) {
    && LastSent(events, k).Some? && LastSent(events, j).Some?
    && LastSent(events, k).value.sendTime <= LastSent(events, j).value.sendTime
  }

  /** Number `gone` is given up for number `k`. */
  ghost predicate GivesUp(o: Outbound, events: seq<Event>, k: u16, o': Outbound, gone: u16) {
    && gone in o.sent && (forall j :: j in o.sent ==> SentNoLater(events, gone, j))
    && o'.sent.Keys == o.sent.Keys - {gone} + {k}
  }

  /** A packet is given up if and only if one is sent while as many as allowed are in
      flight; then it is one that none was sent before. */
  lemma GivesUpEarliestIffFull(maxInFlight: nat, run: seq<Outbound>, events: seq<Event>, i: nat)
    requires IsRun(maxInFlight, run, events) && run[0] == NewOutbound() && i < |events|
    ensures var o, o', e := run[i], run[i + 1], events[i];
      var full := e.Send? && o.sent != map[] && |o.sent| >= maxInFlight;
      && o'.evicted == o.evicted + (if full then 1 else 0)
      && (full ==> exists gone: u16 :: GivesUp(o, events[..i], e.sequence, o', gone))
      && (e.Send? && !full ==> o'.sent.Keys == o.sent.Keys + {e.sequence})
  {
    RunRecords(maxInFlight, run, events, i);
    var o, o', e := run[i], run[i + 1], events[i];
    assert Step(maxInFlight, o, e, o');
    hide IsRun, LastSent;
    match e
    case Send(k, p) =>
      if o.sent != map[] && |o.sent| >= maxInFlight {
        var room :| EvictsWorst(o, room) && o' == Tracked(room, k, p);
        var gone: u16 :| IsOldest(o.sent, gone) && room == o.(sent := o.sent - {gone}, evicted := o.evicted + 1);
        forall j | j in o.sent
          ensures SentNoLater(events[..i], gone, j)
        {
        }
        assert GivesUp(o, events[..i], k, o', gone);
      }
    case Acks(ack, bits, now) =>
      AfterAcksEffect(o, ack, bits, now);
      hide AfterAcks;
  }

  // ---------- what acknowledgements take ----------

  predicate Distinct(ks: seq<u16>) { forall i, j :: 0 <= i < j < |ks| ==> ks[i] != ks[j] }

  function Behind(ack: u16, k: u16): nat { (ack - k) % 65536 }

  /** Each further from the newest than the one before, and none by more than `n`. */
  predicate NearestFirst(ack: u16, ks: seq<u16>, n: nat) {
    && (forall i, j :: 0 <= i < j < |ks| ==> Behind(ack, ks[i]) < Behind(ack, ks[j]))
    && forall i :: 0 <= i < |ks| ==> Behind(ack, ks[i]) <= n
  }

  lemma {:induction false} NamedNearestFirst(ack: u16, bits: u64, n: nat)
    requires n <= 64
    ensures NearestFirst(ack, AckOrder(ack, bits, n), n)
  {
    hide TestBit;
    if n > 0 {
      NamedNearestFirst(ack, bits, n - 1);
      assert Behind(ack, WrappingSub(ack, n)) == n;
      hide Behind, WrappingSub;
    } else {
      assert Behind(ack, ack) == 0;
    }
  }

  lemma NamedOnce(ack: u16, bits: u64)
    ensures Distinct(AckOrder(ack, bits, 64))
  {
    NamedNearestFirst(ack, bits, 64);
    hide AckOrder, Behind;
  }

  /** How old a packet is when it is acknowledged, in the order of `ks`. */
  function Ages(flying: set<u16>, events: seq<Event>, ks: seq<u16>, now: Instant): seq<real> {
    if ks == [] then []
    else
      var k, p := ks[|ks| - 1], LastSent(events, ks[|ks| - 1]);
      Ages(flying, events, ks[..|ks| - 1], now)
        + if k in flying && p.Some? then [if p.value.sendTime <= now then (now - p.value.sendTime) as real else 0.0]
          else []
  }

  /** The channel messages acknowledged, in the order of `ks`. */
  function Messages(flying: set<u16>, events: seq<Event>, ks: seq<u16>): seq<(u8, u16)> {
    if ks == [] then []
    else
      var k, p := ks[|ks| - 1], LastSent(events, ks[|ks| - 1]);
      Messages(flying, events, ks[..|ks| - 1])
        + if k in flying && p.Some? then [(p.value.channelId, p.value.channelSequence)] else []
  }

  function Sizes(flying: set<u16>, events: seq<Event>, ks: seq<u16>): nat {
    if ks == [] then 0
    else
      var k, p := ks[|ks| - 1], LastSent(events, ks[|ks| - 1]);
      Sizes(flying, events, ks[..|ks| - 1]) + if k in flying && p.Some? then p.value.size else 0
  }

  /** How far the estimate and the counters have come. */
  ghost predicate Tally(o: Outbound, q: Outbound, earlier: seq<real>, ages: seq<real>, messages: seq<(u8, u16)>,
                        size: nat) {
    && q.rtt == RttEstimator.AfterSamples(earlier + ages)
    && q.bytesAcked == o.bytesAcked + size && q.totalAcked == o.totalAcked + |messages|
    && q.bytesSent == o.bytesSent && q.totalSent == o.totalSent
  }

  lemma OneTaken(o: Outbound, q: Outbound, k: u16, now: Instant, earlier: seq<real>, ages: seq<real>,
                 messages: seq<(u8, u16)>, size: nat)
    requires GoodRing(q) && k in q.sent && Tally(o, q, earlier, ages, messages, size)
    ensures var p := q.sent[k];
      var age := if p.sendTime <= now then (now - p.sendTime) as real else 0.0;
      Tally(o, AckedSingle(q, k, now), earlier, ages + [age], messages + [(p.channelId, p.channelSequence)],
            size + p.size)
  {
    var p := q.sent[k];
    var age := if p.sendTime <= now then (now - p.sendTime) as real else 0.0;
    assert (earlier + (ages + [age]))[..|earlier + ages|] == earlier + ages;
    hide RttEstimator.Sampled;
  }

  lemma AckedPairsStep(o: Outbound, ks: seq<u16>, now: Instant)
    requires GoodRing(o) && ks != []
    ensures var front, k := ks[..|ks| - 1], ks[|ks| - 1]; var before := AckedAll(o, front, now).sent;
      AckedPairs(o, ks, now) == AckedPairs(o, front, now) + if k in before then [PairOf(before[k])] else []
  {
  }

  lemma Untaken(o: Outbound, front: seq<u16>, k: u16, now: Instant)
    requires GoodRing(o) && k !in front
    ensures var q := AckedAll(o, front, now);
      && (k in q.sent <==> k in o.sent) && (k in o.sent ==> q.sent[k] == o.sent[k])
      && (k !in o.sent ==> AckedSingle(q, k, now) == q)
  {
    AckedAllRemoves(o, front, now);
    hide AckedAll, Moved;
  }

  /** With the numbers all different: the ages are sampled and the messages listed in
      order, and the counters grow by them. */
  lemma {:induction false} TakenInOrder(o: Outbound, events: seq<Event>, ks: seq<u16>, now: Instant, earlier: seq<real>)
    requires GoodRing(o) && Recorded(o.sent, events) && o.rtt == RttEstimator.AfterSamples(earlier)
    requires Distinct(ks)
    ensures var flying := o.sent.Keys;
      && Tally(o, AckedAll(o, ks, now), earlier, Ages(flying, events, ks, now), Messages(flying, events, ks),
               Sizes(flying, events, ks))
      && AckedPairs(o, ks, now) == Messages(flying, events, ks)
  {
    hide LastSent, Tally, AckedAll, AckedSingle;
    AckedAllStep(o, ks, now);
    if ks == [] {
      NothingTaken(o, earlier);
    } else {
      var front, k := ks[..|ks| - 1], ks[|ks| - 1];
      TakenInOrder(o, events, front, now, earlier);
      AckedPairsStep(o, ks, now);
      Untaken(o, front, k, now);
      hide AckedPairs;
      var flying := o.sent.Keys;
      if k in o.sent {
        OneTaken(o, AckedAll(o, front, now), k, now, earlier, Ages(flying, events, front, now),
                 Messages(flying, events, front), Sizes(flying, events, front));
      } else {
        assert Ages(flying, events, front, now) + [] == Ages(flying, events, front, now);
        assert Messages(flying, events, front) + [] == Messages(flying, events, front);
      }
    }
  }

  lemma NothingTaken(o: Outbound, earlier: seq<real>)
    requires o.rtt == RttEstimator.AfterSamples(earlier)
    ensures Tally(o, o, earlier, [], [], 0)
  {
    assert earlier + [] == earlier;
  }

  // ---------- whole runs ----------

  /** The ages at acknowledgement of all packets acknowledged so far, in order. */
  function Samples(run: seq<Outbound>, events: seq<Event>, n: nat): seq<real>
    requires n <= |events| < |run|
  {
    if n == 0 then []
    else
      var e, before := events[n - 1], events[..n - 1];
      Samples(run, events, n - 1)
        + if e.Send? then [] else Ages(run[n - 1].sent.Keys, before, AckOrder(e.ack, e.bits, 64), e.now)
  }

  function SentBytes(events: seq<Event>): nat {
    if events == [] then 0
    else
      var e := events[|events| - 1];
      SentBytes(events[..|events| - 1]) + if e.Send? then e.packet.size else 0
  }

  function SentCount(events: seq<Event>): nat {
    if events == [] then 0 else SentCount(events[..|events| - 1]) + if events[|events| - 1].Send? then 1 else 0
  }

  function AckedBytes(run: seq<Outbound>, events: seq<Event>, n: nat): nat
    requires n <= |events| < |run|
  {
    if n == 0 then 0
    else
      var e := events[n - 1];
      AckedBytes(run, events, n - 1)
        + if e.Send? then 0 else Sizes(run[n - 1].sent.Keys, events[..n - 1], AckOrder(e.ack, e.bits, 64))
  }

  lemma AcksTake(o: Outbound, events: seq<Event>, ack: u16, bits: u64, now: Instant, earlier: seq<real>)
    requires GoodRing(o) && Recorded(o.sent, events) && o.rtt == RttEstimator.AfterSamples(earlier)
    ensures var o', ks, flying := AfterAcks(o, ack, bits, now), AckOrder(ack, bits, 64), o.sent.Keys;
      && o'.rtt == RttEstimator.AfterSamples(earlier + Ages(flying, events, ks, now))
      && AckedPairs(o, ks, now) == Messages(flying, events, ks)
      && o'.bytesAcked == o.bytesAcked + Sizes(flying, events, ks)
      && o'.bytesSent == o.bytesSent && o'.totalSent == o.totalSent
  {
    NamedOnce(ack, bits);
    hide AckOrder, AckedAll, AckedPairs, Ages, Messages, Sizes;
    TakenInOrder(o, events, AckOrder(ack, bits, ACK_BITS_WINDOW), now, earlier);
  }

  lemma SendTakes(maxInFlight: nat, o: Outbound, k: u16, p: SentPacket, o': Outbound)
    requires Sends(maxInFlight, o, k, p, o')
    ensures o'.rtt == o.rtt && o'.bytesAcked == o.bytesAcked
    ensures o'.bytesSent == o.bytesSent + p.size && o'.totalSent == o.totalSent + 1
  {
    hide IsOldest;
  }

  /** After every run the estimate is what the ages of the acknowledged packets lead
      to, each from its last sending to its acknowledgement, in the order in which
      they are named; and the counters are the sums over what was sent and what was
      acknowledged. */
  lemma {:induction false} EstimateIsOfAges(maxInFlight: nat, run: seq<Outbound>, events: seq<Event>, n: nat)
    requires IsRun(maxInFlight, run, events) && run[0] == NewOutbound() && n <= |events|
    ensures var o := run[n];
      && o.rtt == RttEstimator.AfterSamples(Samples(run, events, n))
      && o.totalSent == SentCount(events[..n]) && o.bytesSent == SentBytes(events[..n])
      && o.bytesAcked == AckedBytes(run, events, n)
  {
    hide Step, Recorded, Ages, Sizes, RttEstimator.AfterSamples, AckOrder;
    if n == 0 {
      NothingSampled();
    } else {
      var o, e, o' := run[n - 1], events[n - 1], run[n];
      EstimateIsOfAges(maxInFlight, run, events, n - 1);
      RunRecords(maxInFlight, run, events, n - 1);
      assert Step(maxInFlight, o, e, o');
      assert events[..n][..n - 1] == events[..n - 1];
      StepTakes(maxInFlight, o, events[..n - 1], e, o', Samples(run, events, n - 1));
    }
  }

  lemma NothingSampled()
    ensures NewOutbound().rtt == RttEstimator.AfterSamples([])
  {
  }

  lemma StepTakes(maxInFlight: nat, o: Outbound, before: seq<Event>, e: Event, o': Outbound, earlier: seq<real>)
    requires Step(maxInFlight, o, e, o') && Recorded(o.sent, before) && o.rtt == RttEstimator.AfterSamples(earlier)
    ensures e.Send? ==>
      && o'.rtt == RttEstimator.AfterSamples(earlier + []) && o'.bytesAcked == o.bytesAcked
      && o'.bytesSent == o.bytesSent + e.packet.size && o'.totalSent == o.totalSent + 1
    ensures e.Acks? ==>
      var ks := AckOrder(e.ack, e.bits, 64);
      && o'.rtt == RttEstimator.AfterSamples(earlier + Ages(o.sent.Keys, before, ks, e.now))
      && o'.bytesAcked == o.bytesAcked + Sizes(o.sent.Keys, before, ks)
      && o'.bytesSent == o.bytesSent && o'.totalSent == o.totalSent
  {
    hide AfterAcks, Sends, Recorded, AckOrder, Ages, Sizes, RttEstimator.AfterSamples;
    match e
    case Send(k, p) =>
      SendTakes(maxInFlight, o, k, p, o');
      assert earlier + [] == earlier;
    case Acks(ack, bits, now) => AcksTake(o, before, ack, bits, now, earlier);
  }

  /** Until a packet is acknowledged the timeout is 100 ms. */
  lemma TimeoutAtFirst(maxInFlight: nat, run: seq<Outbound>, events: seq<Event>, n: nat)
    requires IsRun(maxInFlight, run, events) && run[0] == NewOutbound() && n <= |events|
    requires Samples(run, events, n) == []
    ensures run[n].rtt.rto == 100 && !run[n].rtt.hasSample && run[n].rtt.srtt == 0.0
  {
    hide Step, Samples;
    EstimateIsOfAges(maxInFlight, run, events, n);
  }

  /** And what each acknowledgement hands on is the messages of the packets it takes,
      as they were sent, in that order. */
  lemma HandsOnMessages(maxInFlight: nat, run: seq<Outbound>, events: seq<Event>, i: nat)
    requires IsRun(maxInFlight, run, events) && run[0] == NewOutbound() && i < |events| && events[i].Acks?
    ensures GoodRing(run[i])
    ensures var ks := AckOrder(events[i].ack, events[i].bits, 64);
      AckedPairs(run[i], ks, events[i].now) == Messages(run[i].sent.Keys, events[..i], ks)
  {
    RunRecords(maxInFlight, run, events, i);
    EstimateIsOfAges(maxInFlight, run, events, i);
    assert Step(maxInFlight, run[i], events[i], run[i + 1]);
    hide Recorded, AckOrder, AckedPairs, Messages, Samples, RttEstimator.AfterSamples;
    AcksTake(run[i], events[..i], events[i].ack, events[i].bits, events[i].now, Samples(run, events, i));
  }

  /** So with every acknowledged packet between `low` and `high` old, from the first
      on the smoothed round trip lies between them, and the timeout in 50..2000. */
  lemma RoundTripInRange(maxInFlight: nat, run: seq<Outbound>, events: seq<Event>, n: nat, low: real, high: real)
    requires IsRun(maxInFlight, run, events) && run[0] == NewOutbound() && n <= |events| && 0.0 <= low
    requires Samples(run, events, n) != []
    requires forall i :: 0 <= i < |Samples(run, events, n)| ==> low <= Samples(run, events, n)[i] <= high
    ensures low <= run[n].rtt.srtt <= high && 50 <= run[n].rtt.rto <= 2000
  {
    hide Step, RttEstimator.AfterSamples, Samples;
    EstimateIsOfAges(maxInFlight, run, events, n);
    RttEstimator.EstimateStaysInRange(Samples(run, events, n), low, high);
  }
}
