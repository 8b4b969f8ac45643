/** The reliability endpoint: one object that keeps both halves, the round-trip
    estimate and the loss ring, and updates them in place. */
module Reliability {
  import opened Wrappers
  import opened SequenceNumbers
  import opened Bits
  import opened SequenceBuffers
  import opened AckWindow
  import opened InFlight
  import RttEstimator
  import LossRing

  class ReliableEndpoint {
    var localSequence: u16
    var remoteSequence: u16
    var ackBits: u64

    var sentPackets: map<u16, SentPacket>
    const receivedPackets: SequenceBuffer<bool>
    const maxInFlight: nat

    var srtt: real
    var rttvar: real
    var rto: int
    var hasRttSample: bool

    const lossWindow: array<bool>
    var lossWindowIndex: nat
    var lossWindowCount: nat

    var totalPacketsSent: nat
    var totalPacketsAcked: nat
    var packetsEvicted: nat
    var bytesSent: nat
    var bytesAcked: nat

    ghost predicate Valid()
      reads this, lossWindow
    {
      && lossWindow.Length == LossRing.LOSS_WINDOW_SIZE && lossWindowCount <= LossRing.LOSS_WINDOW_SIZE
      && receivedPackets.entries.Length > 0
    }

    /** The receiving half. */
    ghost function Receiving(): Inbound
      reads this, receivedPackets, receivedPackets.entries
    {
      Inbound(remoteSequence, ackBits, receivedPackets.Contents())
    }

    ghost function Rtt(): RttEstimator.Rtt
      reads this
    {
      RttEstimator.Rtt(srtt, rttvar, rto, hasRttSample)
    }

    ghost function Losses(): LossRing.Ring
      reads this, lossWindow
    {
      LossRing.Ring(lossWindow[..], lossWindowIndex, lossWindowCount)
    }

    /** The sending half. */
    ghost function Sending(): Outbound
      reads this, lossWindow
    {
      Outbound(sentPackets, Rtt(), Losses(), totalPacketsSent, totalPacketsAcked, packetsEvicted, bytesSent, bytesAcked)
    }

    constructor (bufferSize: nat, maxInFlight: nat)
      ensures bufferSize > 0 ==> Valid()
      ensures fresh(receivedPackets) && fresh(receivedPackets.entries) && fresh(lossWindow)
      ensures Receiving() == NewEndpoint(bufferSize) && Sending() == NewOutbound()
      ensures this.maxInFlight == maxInFlight && localSequence == 0
    {
      localSequence, remoteSequence, ackBits := 0, 0, 0;
      sentPackets := map[];
      var received := new SequenceBuffer<bool>(bufferSize);
      receivedPackets := received;
      this.maxInFlight := maxInFlight;
      srtt, rttvar, rto, hasRttSample := 0.0, 0.0, RttEstimator.INITIAL_RTO_MILLIS, false;
      lossWindow := new bool[LossRing.LOSS_WINDOW_SIZE](_ => false);
      lossWindowIndex, lossWindowCount := 0, 0;
      totalPacketsSent, totalPacketsAcked, packetsEvicted, bytesSent, bytesAcked := 0, 0, 0, 0, 0;
      new;
      assert lossWindow[..] == LossRing.NewRing().window;
    }

    method NextSequence() returns (sequence: u16)
      modifies this`localSequence
      ensures sequence == old(localSequence) && localSequence == WrappingAdd(sequence, 1)
    {
      sequence := localSequence;
      localSequence := WrappingAdd(localSequence, 1);
    }

    method OnPacketSent(sequence: u16, sendTime: Instant, channelId: u8, channelSequence: u16, size: nat)
      requires Valid()
      modifies this`sentPackets, this`packetsEvicted, this`totalPacketsSent, this`bytesSent
      ensures Valid()
      ensures Sends(maxInFlight, old(Sending()), sequence, SentPacket(channelId, channelSequence, sendTime, size, 0),
            Sending())
    {
      if |sentPackets| >= maxInFlight {
        EvictWorstInFlight();
      }
      ghost var room := Sending();
      var packet := SentPacket(channelId, channelSequence, sendTime, size, 0);
      sentPackets := sentPackets[sequence := packet];
      totalPacketsSent := totalPacketsSent + 1;
      bytesSent := bytesSent + size;
      assert Sending() == Tracked(room, sequence, packet);
    }

    method EvictWorstInFlight()
      modifies this`sentPackets, this`packetsEvicted
      ensures EvictsWorst(old(Sending()), Sending())
    {
      if sentPackets == map[] { return; }
      var worst :| worst in sentPackets;
      var left := sentPackets.Keys - {worst};
      while left != {}
        invariant left <= sentPackets.Keys && worst in sentPackets
        invariant forall k :: k in sentPackets.Keys - left ==> sentPackets[worst].sendTime <= sentPackets[k].sendTime
        decreases |left|
      {
        var k :| k in left;
        left := left - {k};
        if sentPackets[k].sendTime < sentPackets[worst].sendTime { worst := k; }
      }
      assert InFlight.IsOldest(sentPackets, worst);
      sentPackets := sentPackets - {worst};
      packetsEvicted := packetsEvicted + 1;
    }

    method OnPacketReceived(sequence: u16)
      requires Valid()
      modifies this`remoteSequence, this`ackBits, receivedPackets, receivedPackets.entries
      ensures Valid() && Receiving() == Received(old(Receiving()), sequence)
    {
      var difference := Diff(sequence, remoteSequence);
      var distance := if difference < 0 then -difference else difference;
      if distance > MAX_SEQUENCE_DISTANCE { return; }
      var seen := receivedPackets.Exists(sequence);
      if !seen {
        receivedPackets.Insert(sequence, true);
        if GreaterThan(sequence, remoteSequence) {
          var diff := Diff(sequence, remoteSequence);
          if diff <= ACK_BITS_WINDOW {
            ackBits := SetBit(ShlWord(ackBits, diff), diff - 1);
          } else {
            ackBits := 0;
          }
          remoteSequence := sequence;
        } else {
          var diff := Diff(remoteSequence, sequence);
          if diff > 0 && diff <= ACK_BITS_WINDOW {
            ackBits := SetBit(ackBits, diff - 1);
          }
        }
      }
    }

    method ProcessAcks(ack: u16, bits: u64, now: Instant)
      returns (acked: seq<(u8, u16)>, fastRetransmit: seq<(u8, u16)>)
      requires Valid()
      modifies this`sentPackets, this`srtt, this`rttvar, this`rto, this`hasRttSample, lossWindow,
               this`lossWindowIndex, this`lossWindowCount, this`totalPacketsAcked, this`bytesAcked
      ensures Valid() && GoodRing(old(Sending()))
      ensures Sending() == AfterAcks(old(Sending()), ack, bits, now)
      ensures acked == AckedPairs(old(Sending()), AckOrder(ack, bits, ACK_BITS_WINDOW), now)
      ensures var left := AckedAll(old(Sending()), AckOrder(ack, bits, ACK_BITS_WINDOW), now).sent;
              FastList(ack, bits, left, left.Keys, fastRetransmit)
    {
      ghost var before := Sending();
      var ackedSeqs := CollectAcked(ack, bits);
      acked := [];
      AckedNone(before, ackedSeqs, now);
      for i := 0 to |ackedSeqs|
        invariant Valid()
        invariant Sending() == AckedAll(before, ackedSeqs[..i], now)
        invariant acked == AckedPairs(before, ackedSeqs[..i], now)
      {
        hide AckedAll, AckedPairs, AckedSingle, Present, AckOrder, PairOf;
        AckedNext(before, ackedSeqs, i, now);
        var pair := AckSingle(ackedSeqs[i], now);
        if pair.Some? { acked := acked + [pair.value]; }
      }
      assert ackedSeqs[..|ackedSeqs|] == ackedSeqs;
      PresentSuffices(before, AckOrder(ack, bits, ACK_BITS_WINDOW), now);

      fastRetransmit := NackTheRest(ack, bits);
    }

    /** The named numbers that are in flight, the acknowledgement's own first. */
    method CollectAcked(ack: u16, bits: u64) returns (ackedSeqs: seq<u16>)
      ensures ackedSeqs == Present(sentPackets, AckOrder(ack, bits, ACK_BITS_WINDOW))
    {
      ackedSeqs := if ack in sentPackets then [ack] else [];
      for i := 0 to ACK_BITS_WINDOW
        invariant ackedSeqs == Present(sentPackets, AckOrder(ack, bits, i))
      {
        hide *;
        ScanStep(sentPackets, ack, bits, i);
        if And(bits, Shl(1, i)) != 0 {
          var sequence := WrappingSub(ack, i + 1);
          if sequence in sentPackets { ackedSeqs := ackedSeqs + [sequence]; }
        }
      }
    }

    /** Counts a miss against each packet in flight that the acknowledgement
        covers and leaves out. */
    method NackTheRest(ack: u16, bits: u64) returns (fastRetransmit: seq<(u8, u16)>)
      modifies this`sentPackets
      ensures sentPackets == AfterNacks(ack, bits, old(sentPackets))
      ensures FastList(ack, bits, old(sentPackets), old(sentPackets).Keys, fastRetransmit)
    {
      ghost var before := sentPackets;
      ghost var ks: seq<u16> := [];
      fastRetransmit := [];
      var left := sentPackets.Keys;
      assert NackedExcept(ack, bits, before, left) == before;
      while left != {}
        invariant NacksSoFar(ack, bits, before, left, sentPackets, fastRetransmit, ks)
        decreases |left|
      {
        hide *;
        var sequence :| sequence in left;
        NackStep(ack, bits, before, left, sentPackets, fastRetransmit, ks, sequence);
        left := left - {sequence};
        if GreaterThan(ack, sequence) {
          var diff := Diff(ack, sequence);
          if 0 < diff && diff <= ACK_BITS_WINDOW {
            var bitIndex := diff - 1;
            if And(bits, Shl(1, bitIndex)) == 0 {
              var packet := sentPackets[sequence];
              var nackCount: u8 := if packet.nackCount < 255 then packet.nackCount + 1 else 255;
              sentPackets := sentPackets[sequence := packet.(nackCount := nackCount)];
              if nackCount == FAST_RETRANSMIT_THRESHOLD {
                fastRetransmit := fastRetransmit + [(packet.channelId, packet.channelSequence)];
                ks := ks + [sequence];
              }
            }
          }
        }
      }
      assert before.Keys - left == before.Keys;
      assert NackedExcept(ack, bits, before, {}) == AfterNacks(ack, bits, before);
    }

    method AckSingle(sequence: u16, now: Instant) returns (pair: Option<(u8, u16)>)
      requires Valid()
      modifies this`sentPackets, this`srtt, this`rttvar, this`rto, this`hasRttSample, lossWindow,
               this`lossWindowIndex, this`lossWindowCount, this`totalPacketsAcked, this`bytesAcked
      ensures Valid() && Sending() == AckedSingle(old(Sending()), sequence, now)
      ensures pair == if sequence in old(sentPackets) then Some(PairOf(old(sentPackets)[sequence])) else None
    {
      if sequence !in sentPackets { return None; }
      var packet := sentPackets[sequence];
      sentPackets := sentPackets - {sequence};
      UpdateRtt(Elapsed(now, packet.sendTime) as real);
      totalPacketsAcked := totalPacketsAcked + 1;
      bytesAcked := bytesAcked + packet.size;
      RecordLossSample(false);
      return Some((packet.channelId, packet.channelSequence));
    }

    method UpdateRtt(sample: real)
      modifies this`srtt, this`rttvar, this`rto, this`hasRttSample
      ensures Rtt() == RttEstimator.Sampled(old(Rtt()), sample)
    {
      if !hasRttSample {
        srtt, rttvar, hasRttSample := sample, sample / 2.0, true;
      } else {
        rttvar := (1.0 - RttEstimator.RTT_BETA) * rttvar + RttEstimator.RTT_BETA * RttEstimator.Abs(sample - srtt);
        srtt := (1.0 - RttEstimator.RTT_ALPHA) * srtt + RttEstimator.RTT_ALPHA * sample;
      }
      rto := RttEstimator.Clamp(srtt + 4.0 * rttvar, RttEstimator.MIN_RTO_MS, RttEstimator.MAX_RTO_MS).Floor;
    }

    method RecordLossSample(lost: bool)
      requires Valid()
      modifies lossWindow, this`lossWindowIndex, this`lossWindowCount
      ensures Valid() && Losses() == LossRing.Recorded(old(Losses()), lost)
    {
      lossWindow[lossWindowIndex % LossRing.LOSS_WINDOW_SIZE] := lost;
      lossWindowIndex := lossWindowIndex + 1;
      if lossWindowCount < LossRing.LOSS_WINDOW_SIZE { lossWindowCount := lossWindowCount + 1; }
    }

    method PacketLossPercent() returns (share: real)
      requires Valid()
      ensures share == LossRing.Reported(Losses())
    {
      if lossWindowCount == 0 { return 0.0; }
      var lost := 0;
      for i := 0 to lossWindowCount
        invariant lost == LossRing.CountLost(lossWindow[..i])
      {
        assert lossWindow[..i + 1][..i] == lossWindow[..i];
        if lossWindow[i] { lost := lost + 1; }
      }
      assert Losses().window[..lossWindowCount] == lossWindow[..lossWindowCount];
      return lost as real / lossWindowCount as real;
    }
  }

  // ---------- steps of the loops above ----------

  /** The numbers of the list that are in flight. */
  function Present(sent: map<u16, SentPacket>, ks: seq<u16>): seq<u16> {
    if ks == [] then []
    else
      var k := ks[|ks| - 1];
      Present(sent, ks[..|ks| - 1]) + if k in sent then [k] else []
  }

  lemma PresentSnoc(sent: map<u16, SentPacket>, ks: seq<u16>, k: u16)
    ensures Present(sent, ks + [k]) == Present(sent, ks) + if k in sent then [k] else []
  {
    assert (ks + [k])[..|ks|] == ks;
  }

  lemma ScanStep(sent: map<u16, SentPacket>, ack: u16, bits: u64, i: nat)
    ensures
      var found, sequence := Present(sent, AckOrder(ack, bits, i)), WrappingSub(ack, i + 1);
      Present(sent, AckOrder(ack, bits, i + 1))
        == if And(bits, Shl(1, i)) != 0 && sequence in sent then found + [sequence] else found
  {
    TestSingleBit(bits, i);
    hide TestBit, And, Shl, WrappingSub, Present;
    var named, sequence := AckOrder(ack, bits, i), WrappingSub(ack, i + 1);
    assert AckOrder(ack, bits, i + 1) == named + if TestBit(bits, i) then [sequence] else [];
    PresentSnoc(sent, named, sequence);
    assert named + [] == named;
    assert Present(sent, named) + [] == Present(sent, named);
  }

  lemma AckedNone(o: Outbound, ks: seq<u16>, now: Instant)
    requires GoodRing(o)
    ensures AckedAll(o, ks[..0], now) == o && AckedPairs(o, ks[..0], now) == []
  {
  }

  lemma AckedNext(o: Outbound, ks: seq<u16>, i: nat, now: Instant)
    requires GoodRing(o) && i < |ks|
    ensures
      var p, k := AckedAll(o, ks[..i], now), ks[i];
      && AckedAll(o, ks[..i + 1], now) == AckedSingle(p, k, now)
      && AckedPairs(o, ks[..i + 1], now) ==
           if k in p.sent then AckedPairs(o, ks[..i], now) + [PairOf(p.sent[k])] else AckedPairs(o, ks[..i], now)
  {
    assert ks[..i + 1][..i] == ks[..i];
    assert AckedPairs(o, ks[..i], now) + [] == AckedPairs(o, ks[..i], now);
    hide AckedSingle, PairOf;
  }

  /** Looking only at the numbers in flight changes nothing. */
  lemma {:induction false} PresentSuffices(o: Outbound, ks: seq<u16>, now: Instant)
    requires GoodRing(o)
    ensures AckedAll(o, Present(o.sent, ks), now) == AckedAll(o, ks, now)
    ensures AckedPairs(o, Present(o.sent, ks), now) == AckedPairs(o, ks, now)
  {
    if ks != [] {
      var front, k := ks[..|ks| - 1], ks[|ks| - 1];
      PresentSuffices(o, front, now);
      hide *;
      AckedNext(o, ks, |front|, now);
      assert front + [k] == ks && ks[..|front| + 1] == ks;
      PresentSnoc(o.sent, front, k);
      if k in o.sent { PresentCounts(o, Present(o.sent, front), k, now); } else { AbsentSkipped(o, front, k, now); }
    }
  }

  lemma PresentCounts(o: Outbound, found: seq<u16>, k: u16, now: Instant)
    requires GoodRing(o)
    ensures
      var p, more := AckedAll(o, found, now), found + [k];
      && AckedAll(o, more, now) == AckedSingle(p, k, now)
      && AckedPairs(o, more, now) ==
           if k in p.sent then AckedPairs(o, found, now) + [PairOf(p.sent[k])] else AckedPairs(o, found, now)
  {
    hide *;
    AckedNext(o, found + [k], |found|, now);
    assert (found + [k])[..|found|] == found && (found + [k])[..|found| + 1] == found + [k];
  }

  lemma AbsentSkipped(o: Outbound, front: seq<u16>, k: u16, now: Instant)
    requires GoodRing(o) && k !in o.sent
    ensures
      var p := AckedAll(o, front, now);
      k !in p.sent && AckedSingle(p, k, now) == p && Present(o.sent, front) + [] == Present(o.sent, front)
  {
    AckedAllRemoves(o, front, now);
    hide AckedAll, Moved;
  }

  ghost predicate NacksSoFar(ack: u16, bits: u64, before: map<u16, SentPacket>, left: set<u16>,
                             sent: map<u16, SentPacket>, out: seq<(u8, u16)>, ks: seq<u16>) {
    && left <= before.Keys
    && sent == NackedExcept(ack, bits, before, left)
    && ListsFiring(ack, bits, before, before.Keys - left, out, ks)
  }

  function NackedExcept(ack: u16, bits: u64, before: map<u16, SentPacket>, left: set<u16>): map<u16, SentPacket> {
    map k | k in before :: if k in left then before[k] else Nacked(ack, bits, k, before[k])
  }

  /** The tests of the code, in its order, say that the window covers the number
      and leaves it out. */
  lemma MissedAsCoded(ack: u16, bits: u64, k: u16)
    ensures
      var back := Diff(ack, k);
      (GreaterThan(ack, k) && 0 < back <= ACK_BITS_WINDOW && And(bits, Shl(1, back - 1)) == 0) <==> Missed(ack, bits, k)
  {
    MissedAsCompared(ack, k);
    hide GreaterThan, Diff, And, Shl, TestBit, WrappingSub;
    var back := Diff(ack, k);
    if 0 < back <= ACK_BITS_WINDOW { TestSingleBit(bits, back - 1); }
  }

  lemma FiringStep(ack: u16, bits: u64, before: map<u16, SentPacket>, keys: set<u16>,
                   out: seq<(u8, u16)>, ks: seq<u16>, k: u16)
    requires keys <= before.Keys && k in before && k !in keys && ListsFiring(ack, bits, before, keys, out, ks)
    ensures
      if Fires(ack, bits, k, before[k])
      then ListsFiring(ack, bits, before, keys + {k}, out + [PairOf(before[k])], ks + [k])
      else ListsFiring(ack, bits, before, keys + {k}, out, ks)
  {
    hide Fires, PairOf;
    var more := ks + [k];
    forall j ensures j in more <==> j in ks || j == k {
      if j == k { assert more[|ks|] == k; }
      if j in ks { var i :| 0 <= i < |ks| && ks[i] == j; assert more[i] == j; }
    }
  }

  lemma NackStep(ack: u16, bits: u64, before: map<u16, SentPacket>, left: set<u16>,
                 sent: map<u16, SentPacket>, out: seq<(u8, u16)>, ks: seq<u16>, k: u16)
    requires NacksSoFar(ack, bits, before, left, sent, out, ks) && k in left
    ensures k in sent
    ensures
      var back := Diff(ack, k);
      var p, rest := sent[k], left - {k};
      if GreaterThan(ack, k) && 0 < back && back <= ACK_BITS_WINDOW && And(bits, Shl(1, back - 1)) == 0 then
        var q := p.(nackCount := if p.nackCount < 255 then p.nackCount + 1 else 255);
        if q.nackCount == FAST_RETRANSMIT_THRESHOLD
        then NacksSoFar(ack, bits, before, rest, sent[k := q], out + [(p.channelId, p.channelSequence)], ks + [k])
        else NacksSoFar(ack, bits, before, rest, sent[k := q], out, ks)
      else NacksSoFar(ack, bits, before, rest, sent, out, ks)
  {
    MissedAsCoded(ack, bits, k);
    hide Diff, GreaterThan, And, Shl, Missed, ListsFiring;
    var rest := left - {k};
    FiringStep(ack, bits, before, before.Keys - left, out, ks, k);
    assert before.Keys - rest == before.Keys - left + {k};
    assert NackedExcept(ack, bits, before, rest) == sent[k := Nacked(ack, bits, k, before[k])];
    assert sent[k] == before[k];
    assert sent[k := sent[k]] == sent;
  }
}
