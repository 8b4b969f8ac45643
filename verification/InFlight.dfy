/** The sending half of the reliability endpoint: packets in flight, what an
    acknowledgement does to them, and what holds over whole runs. */
module InFlight {
  import opened Wrappers
  import opened SequenceNumbers
  import opened Bits
  import opened AckWindow
  import RttEstimator
  import LossRing

  const FAST_RETRANSMIT_THRESHOLD := 3

  datatype SentPacket = SentPacket(
    channelId: u8,
    channelSequence: u16,
    sendTime: Instant,
    size: nat,
    nackCount: u8)

  datatype Outbound = Outbound(
    sent: map<u16, SentPacket>,
    rtt: RttEstimator.Rtt,
    losses: LossRing.Ring,
    totalSent: nat,
    totalAcked: nat,
    evicted: nat,
    bytesSent: nat,
    bytesAcked: nat)

  function NewOutbound(): Outbound { Outbound(map[], RttEstimator.NEW_RTT, LossRing.NewRing(), 0, 0, 0, 0, 0) }

  predicate GoodRing(o: Outbound) { |o.losses.window| == LossRing.LOSS_WINDOW_SIZE }

  function PairOf(p: SentPacket): (u8, u16) { (p.channelId, p.channelSequence) }

  // ---------- sending ----------

  ghost predicate IsOldest(sent: map<u16, SentPacket>, k: u16) {
    k in sent && forall j :: j in sent ==> sent[k].sendTime <= sent[j].sendTime
  }

  /** Any packet that no other was sent before may be the one given up. */
  ghost predicate EvictsWorst(o: Outbound, o': Outbound) {
    if o.sent == map[] then o' == o
    else exists k :: IsOldest(o.sent, k) && o' == o.(sent := o.sent - {k}, evicted := o.evicted + 1)
  }

  function Tracked(o: Outbound, k: u16, p: SentPacket): Outbound {
    o.(sent := o.sent[k := p], totalSent := o.totalSent + 1, bytesSent := o.bytesSent + p.size)
  }

  ghost predicate Sends(maxInFlight: nat, o: Outbound, k: u16, p: SentPacket, o': Outbound) {
    if |o.sent| >= maxInFlight then exists room :: EvictsWorst(o, room) && o' == Tracked(room, k, p)
    else o' == Tracked(o, k, p)
  }

  // ---------- acknowledgements ----------

  /** The numbers an acknowledgement names, in the order they are looked at: its
      own, then those of the first `n` bits. */
  function AckOrder(ack: u16, bits: u64, n: nat): seq<u16> {
    if n == 0 then [ack]
    else AckOrder(ack, bits, n - 1) + if TestBit(bits, n - 1) then [WrappingSub(ack, n)] else []
  }

  function AckedSingle(o: Outbound, k: u16, now: Instant): (o': Outbound)
    requires GoodRing(o)
    ensures GoodRing(o')
  {
    if k !in o.sent then o
    else
      o.(sent := o.sent - {k},
         rtt := RttEstimator.Sampled(o.rtt, Elapsed(now, o.sent[k].sendTime) as real),
         losses := LossRing.Recorded(o.losses, false),
         totalAcked := o.totalAcked + 1,
         bytesAcked := o.bytesAcked + o.sent[k].size)
  }

  function AckedAll(o: Outbound, ks: seq<u16>, now: Instant): (o': Outbound)
    requires GoodRing(o)
    ensures GoodRing(o')
  {
    if ks == [] then o else AckedSingle(AckedAll(o, ks[..|ks| - 1], now), ks[|ks| - 1], now)
  }

  /** The channel messages acknowledged, in the same order. */
  function AckedPairs(o: Outbound, ks: seq<u16>, now: Instant): seq<(u8, u16)>
    requires GoodRing(o)
  {
    if ks == [] then []
    else
      var before, k := AckedAll(o, ks[..|ks| - 1], now).sent, ks[|ks| - 1];
      AckedPairs(o, ks[..|ks| - 1], now) + if k in before then [PairOf(before[k])] else []
  }

  /** The window of the acknowledgement covers number `k` but leaves it out. */
  predicate Missed(ack: u16, bits: u64, k: u16) {
    var back := WrappingSub(ack, k);
    1 <= back <= ACK_BITS_WINDOW && !TestBit(bits, back - 1)
  }

  function Nacked(ack: u16, bits: u64, k: u16, p: SentPacket): SentPacket {
    if Missed(ack, bits, k) then p.(nackCount := if p.nackCount < 255 then p.nackCount + 1 else 255) else p
  }

  /** The miss that makes a packet due for a fast retransmit. */
  predicate Fires(ack: u16, bits: u64, k: u16, p: SentPacket) {
    Missed(ack, bits, k) && Nacked(ack, bits, k, p).nackCount == FAST_RETRANSMIT_THRESHOLD
  }

  function AfterNacks(ack: u16, bits: u64, sent: map<u16, SentPacket>): map<u16, SentPacket> {
    map k | k in sent :: Nacked(ack, bits, k, sent[k])
  }

  function AfterAcks(o: Outbound, ack: u16, bits: u64, now: Instant): (o': Outbound)
    requires GoodRing(o)
    ensures GoodRing(o')
  {
    var q := AckedAll(o, AckOrder(ack, bits, ACK_BITS_WINDOW), now);
    q.(sent := AfterNacks(ack, bits, q.sent))
  }

  /** Those of `keys` that fire, each once, in any order. */
  ghost predicate FastList(ack: u16, bits: u64, sent: map<u16, SentPacket>, keys: set<u16>, out: seq<(u8, u16)>)
    requires keys <= sent.Keys
  {
    exists ks: seq<u16> :: ListsFiring(ack, bits, sent, keys, out, ks)
  }

  ghost predicate ListsFiring(ack: u16, bits: u64, sent: map<u16, SentPacket>, keys: set<u16>,
                              out: seq<(u8, u16)>, ks: seq<u16>)
    requires keys <= sent.Keys
  {
    && (forall i, j :: 0 <= i < j < |ks| ==> ks[i] != ks[j])
    && (forall k :: k in ks <==> k in keys && Fires(ack, bits, k, sent[k]))
    && |out| == |ks| && forall i :: 0 <= i < |ks| ==> ks[i] in sent && out[i] == PairOf(sent[ks[i]])
  }

  // ---------- what an acknowledgement names ----------

  /** The 65 numbers: its own, and those whose bit is set. */
  lemma {:induction false} NamedIff(ack: u16, bits: u64, n: nat, k: u16)
    requires n <= ACK_BITS_WINDOW
    ensures k in AckOrder(ack, bits, n) <==>
              k == ack || (1 <= WrappingSub(ack, k) <= n && TestBit(bits, WrappingSub(ack, k) - 1))
  {
    if n > 0 {
      NamedIff(ack, bits, n - 1, k);
      BackAndForth(ack, k, n);
    }
  }

  lemma BackAndForth(ack: u16, k: u16, n: nat)
    requires n <= ACK_BITS_WINDOW
    ensures WrappingSub(ack, n) == k <==> WrappingSub(ack, k) == n
  {
  }

  /** The comparison and the difference, as the code combines them, find the
      numbers at most a window back. */
  lemma MissedAsCompared(ack: u16, k: u16)
    ensures (GreaterThan(ack, k) && 0 < Diff(ack, k) <= ACK_BITS_WINDOW)
        <==> 1 <= WrappingSub(ack, k) <= ACK_BITS_WINDOW
    ensures 1 <= WrappingSub(ack, k) <= ACK_BITS_WINDOW ==> Diff(ack, k) == WrappingSub(ack, k)
  {
  }

  ghost function SetOf(ks: seq<u16>): set<u16> { set k | k in ks }

  /** The packets that were in flight and now are not have each been counted as
      acknowledged, once. */
  ghost predicate Moved(o: Outbound, q: Outbound) {
    && |q.sent| + q.totalAcked == |o.sent| + o.totalAcked && q.totalAcked >= o.totalAcked
    && q.totalSent == o.totalSent && q.evicted == o.evicted
  }

  lemma AckedSingleRemoves(o: Outbound, k: u16, now: Instant)
    requires GoodRing(o)
    ensures AckedSingle(o, k, now).sent == o.sent - {k} && Moved(o, AckedSingle(o, k, now))
  {
    if k in o.sent { RemovalShrinks(o.sent, k); } else { assert o.sent - {k} == o.sent; }
  }

  lemma MinusOneMore(m: map<u16, SentPacket>, ks: seq<u16>)
    requires ks != []
    ensures m - SetOf(ks) == m - SetOf(ks[..|ks| - 1]) - {ks[|ks| - 1]}
  {
    assert ks == ks[..|ks| - 1] + [ks[|ks| - 1]];
    assert SetOf(ks) == SetOf(ks[..|ks| - 1]) + {ks[|ks| - 1]};
  }

  lemma AckedAllStep(o: Outbound, ks: seq<u16>, now: Instant)
    requires GoodRing(o)
    ensures ks == [] ==> AckedAll(o, ks, now) == o
    ensures ks != [] ==> AckedAll(o, ks, now) == AckedSingle(AckedAll(o, ks[..|ks| - 1], now), ks[|ks| - 1], now)
  {
  }

  /** Exactly the packets in flight among those named go. */
  lemma {:induction false} AckedAllRemoves(o: Outbound, ks: seq<u16>, now: Instant)
    requires GoodRing(o)
    ensures AckedAll(o, ks, now).sent == o.sent - SetOf(ks) && Moved(o, AckedAll(o, ks, now))
  {
    hide *;
    AckedAllStep(o, ks, now);
    if ks == [] {
      NoneAcked(o);
    } else {
      var front, k := ks[..|ks| - 1], ks[|ks| - 1];
      AckedAllRemoves(o, front, now);
      AckedSingleRemoves(AckedAll(o, front, now), k, now);
      MovedTwice(o, AckedAll(o, front, now), AckedAll(o, ks, now));
      MinusOneMore(o.sent, ks);
    }
  }

  lemma NoneAcked(o: Outbound)
    ensures o.sent - SetOf([]) == o.sent && Moved(o, o)
  {
    assert SetOf([]) == {};
  }

  lemma MovedTwice(o: Outbound, p: Outbound, q: Outbound)
    ensures Moved(o, p) && Moved(p, q) ==> Moved(o, q)
  {
  }

  lemma AfterAcksEffect(o: Outbound, ack: u16, bits: u64, now: Instant)
    requires GoodRing(o)
    ensures var q := AfterAcks(o, ack, bits, now);
      && (forall k :: k in q.sent <==> k in o.sent && k !in AckOrder(ack, bits, ACK_BITS_WINDOW))
      && (forall k :: k in q.sent ==> q.sent[k] == Nacked(ack, bits, k, o.sent[k]))
      && Moved(o, q)
  {
    var ks := AckOrder(ack, bits, ACK_BITS_WINDOW);
    AckedAllRemoves(o, ks, now);
    hide AckedAll, AckOrder, Nacked;
    var q := AckedAll(o, ks, now);
    assert AfterNacks(ack, bits, q.sent).Keys == q.sent.Keys;
  }

  // ---------- whole runs ----------

  datatype Event =
    | Send(sequence: u16, packet: SentPacket)
    | Acks(ack: u16, bits: u64, now: Instant)

  ghost predicate Step(maxInFlight: nat, o: Outbound, e: Event, o': Outbound) {
    match e
    case Send(k, p) => p.nackCount == 0 && Sends(maxInFlight, o, k, p, o')
    case Acks(ack, bits, now) => GoodRing(o) && o' == AfterAcks(o, ack, bits, now)
  }

  ghost predicate IsRun(maxInFlight: nat, run: seq<Outbound>, events: seq<Event>) {
    && |run| == |events| + 1
    && forall i :: 0 <= i < |events| ==> Step(maxInFlight, run[i], events[i], run[i + 1])
  }

  /** A packet is sent under the number of one still in flight, which is not the one
      evicted to make room: the record in flight is overwritten. */
  ghost predicate Overwrites(o: Outbound, e: Event, o': Outbound) {
    e.Send? && e.sequence in o.sent && !(o'.evicted > o.evicted && o'.sent.Keys == o.sent.Keys)
  }

  ghost predicate OverwritesAt(run: seq<Outbound>, events: seq<Event>, i: nat)
    requires |run| == |events| + 1
  {
    i < |events| && Overwrites(run[i], events[i], run[i + 1])
  }

  /** How many of the first `n` events overwrite a record. */
  ghost function CountOverwritten(run: seq<Outbound>, events: seq<Event>, n: nat): nat
    requires |run| == |events| + 1
  {
    if n == 0 then 0 else CountOverwritten(run, events, n - 1) + if OverwritesAt(run, events, n - 1) then 1 else 0
  }

  ghost predicate Accounted(maxInFlight: nat, o: Outbound, overwritten: nat) {
    && GoodRing(o)
    && o.totalSent == |o.sent| + o.totalAcked + o.evicted + overwritten
    && |o.sent| <= if maxInFlight == 0 then 1 else maxInFlight
  }

  lemma TrackedSize(room: Outbound, k: u16, p: SentPacket)
    ensures |Tracked(room, k, p).sent| == |room.sent| + if k in room.sent then 0 else 1
  {
    var after := Tracked(room, k, p).sent;
    assert after.Keys == room.sent.Keys + {k};
    if k in room.sent { assert after.Keys == room.sent.Keys; }
  }

  lemma OverwritesMeans(o: Outbound, j: u16, room: Outbound, k: u16, p: SentPacket)
    requires j in o.sent && room == o.(sent := o.sent - {j}, evicted := o.evicted + 1)
    ensures Overwrites(o, Send(k, p), Tracked(room, k, p)) <==> k in room.sent
  {
    var after := Tracked(room, k, p).sent;
    assert after.Keys == o.sent.Keys - {j} + {k};
    if k in room.sent { assert j !in after.Keys; }
    if k == j { assert after.Keys == o.sent.Keys; }
  }

  lemma SendAccounts(maxInFlight: nat, o: Outbound, k: u16, p: SentPacket, o': Outbound, n: nat)
    requires Accounted(maxInFlight, o, n) && Sends(maxInFlight, o, k, p, o')
    ensures Accounted(maxInFlight, o', n + if Overwrites(o, Send(k, p), o') then 1 else 0)
  {
    if |o.sent| >= maxInFlight && o.sent != map[] {
      var room :| EvictsWorst(o, room) && o' == Tracked(room, k, p);
      var j :| IsOldest(o.sent, j) && room == o.(sent := o.sent - {j}, evicted := o.evicted + 1);
      RemovalShrinks(o.sent, j);
      OverwritesMeans(o, j, room, k, p);
      TrackedSize(room, k, p);
      hide Overwrites, IsOldest, EvictsWorst, Sends;
    } else {
      TrackedSize(o, k, p);
      hide IsOldest;
    }
  }

  lemma StepAccounts(maxInFlight: nat, o: Outbound, e: Event, o': Outbound, n: nat)
    requires Accounted(maxInFlight, o, n) && Step(maxInFlight, o, e, o')
    ensures Accounted(maxInFlight, o', n + if Overwrites(o, e, o') then 1 else 0)
  {
    match e
    case Send(k, p) =>
      SendAccounts(maxInFlight, o, k, p, o', n);
    case Acks(ack, bits, now) =>
      AfterAcksEffect(o, ack, bits, now);
      hide AfterAcks;
  }

  lemma NewIsAccounted(maxInFlight: nat)
    ensures Accounted(maxInFlight, NewOutbound(), 0)
  {
  }

  lemma {:induction false} RunAccounts(maxInFlight: nat, run: seq<Outbound>, events: seq<Event>, n: nat)
    requires IsRun(maxInFlight, run, events) && run[0] == NewOutbound() && n <= |events|
    ensures Accounted(maxInFlight, run[n], CountOverwritten(run, events, n))
  {
    hide Step, Accounted, Overwrites;
    if n == 0 {
      NewIsAccounted(maxInFlight);
    } else {
      RunAccounts(maxInFlight, run, events, n - 1);
      assert Step(maxInFlight, run[n - 1], events[n - 1], run[n]);
      hide IsRun;
      StepAccounts(maxInFlight, run[n - 1], events[n - 1], run[n], CountOverwritten(run, events, n - 1));
    }
  }

  /** Over every run a packet ever sent is in flight, acknowledged, evicted or
      overwritten, and the cap is kept. */
  lemma EachIsAccounted(maxInFlight: nat, run: seq<Outbound>, events: seq<Event>)
    requires IsRun(maxInFlight, run, events) && run[0] == NewOutbound()
    ensures var o := run[|events|];
      && o.totalSent == |o.sent| + o.totalAcked + o.evicted + CountOverwritten(run, events, |events|)
      && |o.sent| <= if maxInFlight == 0 then 1 else maxInFlight
  {
    RunAccounts(maxInFlight, run, events, |events|);
    hide Step, CountOverwritten;
  }

  lemma {:induction false} NoneOverwritten(run: seq<Outbound>, events: seq<Event>, n: nat)
    requires |run| == |events| + 1
    ensures CountOverwritten(run, events, n) == 0 <==> forall i: nat :: i < n ==> !OverwritesAt(run, events, i)
  {
    hide OverwritesAt;
    if n > 0 { NoneOverwritten(run, events, n - 1); }
  }

  /** So what is sent is in flight, acknowledged or evicted if and only if no number
      has been used again while its packet was in flight, but for the one evicted. */
  lemma ConservedIff(maxInFlight: nat, run: seq<Outbound>, events: seq<Event>)
    requires IsRun(maxInFlight, run, events) && run[0] == NewOutbound()
    ensures var o := run[|events|];
      o.totalSent == |o.sent| + o.totalAcked + o.evicted
      <==> forall i: nat :: i < |events| ==> !OverwritesAt(run, events, i)
  {
    EachIsAccounted(maxInFlight, run, events);
    NoneOverwritten(run, events, |events|);
    hide OverwritesAt, Step, CountOverwritten;
  }

  // ---------- fast retransmit ----------

  predicate Misses(e: Event, k: u16) { e.Acks? && Missed(e.ack, e.bits, k) }

  function CountMisses(events: seq<Event>, k: u16): nat {
    if events == [] then 0
    else CountMisses(events[..|events| - 1], k) + if Misses(events[|events| - 1], k) then 1 else 0
  }

  /** Number `k` stays in flight throughout and is not sent again. */
  ghost predicate StaysInFlight(run: seq<Outbound>, events: seq<Event>, k: u16)
    requires |run| == |events| + 1
  {
    && (forall i :: 0 <= i < |run| ==> k in run[i].sent)
    && (forall i :: 0 <= i < |events| && events[i].Send? ==> events[i].sequence != k)
  }

  lemma StepCounts(maxInFlight: nat, o: Outbound, e: Event, o': Outbound, k: u16)
    requires Step(maxInFlight, o, e, o') && k in o.sent && k in o'.sent && (e.Send? ==> e.sequence != k)
    ensures o'.sent[k] == if Misses(e, k) then Nacked(e.ack, e.bits, k, o.sent[k]) else o.sent[k]
  {
    match e
    case Send(j, p) =>
    case Acks(ack, bits, now) => AfterAcksEffect(o, ack, bits, now); hide AfterAcks;
  }

  lemma {:induction false} NackCountIsMisses(maxInFlight: nat, run: seq<Outbound>, events: seq<Event>, k: u16)
    requires IsRun(maxInFlight, run, events) && StaysInFlight(run, events, k) && run[0].sent[k].nackCount == 0
    ensures var n := CountMisses(events, k);
            run[|events|].sent[k].nackCount == if n < 255 then n else 255
    decreases |events|
  {
    if events != [] {
      var i := |events| - 1;
      hide Step, Misses, Missed;
      NackCountIsMisses(maxInFlight, run[..i + 1], events[..i], k);
      assert run[..i + 1][i] == run[i];
      StepCounts(maxInFlight, run[i], events[i], run[i + 1], k);
      NackedMeans(events[i], k, run[i].sent[k]);
    }
  }

  lemma NackedMeans(e: Event, k: u16, p: SentPacket)
    ensures Misses(e, k) ==>
      Nacked(e.ack, e.bits, k, p).nackCount == if p.nackCount < 255 then p.nackCount + 1 else 255
  {
  }

  /** A packet fires on the third acknowledgement that covers it but leaves it
      out, and on no other. */
  lemma FiresOnThirdMiss(maxInFlight: nat, run: seq<Outbound>, events: seq<Event>, k: u16, i: nat)
    requires IsRun(maxInFlight, run, events) && StaysInFlight(run, events, k) && run[0].sent[k].nackCount == 0
    requires i < |events| && events[i].Acks?
    ensures Fires(events[i].ack, events[i].bits, k, run[i].sent[k]) <==>
              Misses(events[i], k) && CountMisses(events[..i + 1], k) == 3
  {
    hide Step, Missed;
    NackCountIsMisses(maxInFlight, run[..i + 1], events[..i], k);
    NackedMeans(events[i], k, run[i].sent[k]);
    assert events[..i + 1][..i] == events[..i];
  }

  lemma {:induction false} MissesGrow(events: seq<Event>, k: u16, i: nat, j: nat)
    requires i <= j <= |events|
    ensures CountMisses(events[..i], k) <= CountMisses(events[..j], k)
    decreases j
  {
    if i < j {
      assert events[..j][..j - 1] == events[..j - 1];
      MissesGrow(events, k, i, j - 1);
    }
  }

  /** So it fires at most once. */
  lemma FiresAtMostOnce(maxInFlight: nat, run: seq<Outbound>, events: seq<Event>, k: u16, i: nat, j: nat)
    requires IsRun(maxInFlight, run, events) && StaysInFlight(run, events, k) && run[0].sent[k].nackCount == 0
    requires i < j < |events| && events[i].Acks? && events[j].Acks?
    requires Fires(events[i].ack, events[i].bits, k, run[i].sent[k])
    ensures !Fires(events[j].ack, events[j].bits, k, run[j].sent[k])
  {
    hide Fires, Misses, Step;
    FiresOnThirdMiss(maxInFlight, run, events, k, i);
    FiresOnThirdMiss(maxInFlight, run, events, k, j);
    MissesGrow(events, k, i + 1, j);
    assert events[..j + 1][..j] == events[..j];
  }

  /** What an acknowledgement leaves in flight, before the misses are counted. */
  function LeftBy(o: Outbound, e: Event): map<u16, SentPacket>
    requires e.Acks? && GoodRing(o)
  {
    AckedAll(o, AckOrder(e.ack, e.bits, ACK_BITS_WINDOW), e.now).sent
  }

  lemma LeftAsBefore(maxInFlight: nat, o: Outbound, e: Event, o': Outbound, k: u16)
    requires Step(maxInFlight, o, e, o') && e.Acks? && k in o.sent && k in o'.sent
    ensures k in LeftBy(o, e) && LeftBy(o, e)[k] == o.sent[k]
  {
    AckedAllRemoves(o, AckOrder(e.ack, e.bits, ACK_BITS_WINDOW), e.now);
    hide AckedAll, AckOrder, Moved;
  }

  /** So the list that is returned has the packet, once, on the third
      acknowledgement that covers it but leaves it out, and on no other. */
  lemma ListedOnThirdMiss(maxInFlight: nat, run: seq<Outbound>, events: seq<Event>, k: u16, i: nat,
                          out: seq<(u8, u16)>, ks: seq<u16>)
    requires IsRun(maxInFlight, run, events) && StaysInFlight(run, events, k) && run[0].sent[k].nackCount == 0
    requires i < |events| && events[i].Acks? && GoodRing(run[i])
    requires var left := LeftBy(run[i], events[i]);
      ListsFiring(events[i].ack, events[i].bits, left, left.Keys, out, ks)
    ensures (exists j :: 0 <= j < |ks| && ks[j] == k && out[j] == PairOf(run[i].sent[k]))
       <==> Misses(events[i], k) && CountMisses(events[..i + 1], k) == 3
    ensures forall j, l :: 0 <= j < l < |ks| ==> ks[j] != k || ks[l] != k
  {
    FiresOnThirdMiss(maxInFlight, run, events, k, i);
    LeftAsBefore(maxInFlight, run[i], events[i], run[i + 1], k);
    hide Fires, Misses, Step, LeftBy, PairOf, CountMisses;
  }

  /** Two acknowledgements never both list it. */
  lemma ListedAtMostOnce(maxInFlight: nat, run: seq<Outbound>, events: seq<Event>, k: u16, i: nat, j: nat,
                         out: seq<(u8, u16)>, ks: seq<u16>, out': seq<(u8, u16)>, ks': seq<u16>)
    requires IsRun(maxInFlight, run, events) && StaysInFlight(run, events, k) && run[0].sent[k].nackCount == 0
    requires i < j < |events| && events[i].Acks? && events[j].Acks? && GoodRing(run[i]) && GoodRing(run[j])
    requires var left := LeftBy(run[i], events[i]);
      ListsFiring(events[i].ack, events[i].bits, left, left.Keys, out, ks)
    requires var left := LeftBy(run[j], events[j]);
      ListsFiring(events[j].ack, events[j].bits, left, left.Keys, out', ks')
    ensures k !in ks || k !in ks'
  {
    LeftAsBefore(maxInFlight, run[i], events[i], run[i + 1], k);
    LeftAsBefore(maxInFlight, run[j], events[j], run[j + 1], k);
    hide Fires, Misses, Step, LeftBy, PairOf, CountMisses;
    if Fires(events[i].ack, events[i].bits, k, run[i].sent[k]) { FiresAtMostOnce(maxInFlight, run, events, k, i, j); }
  }

  // ---------- reported loss ----------

  /** The outcomes recorded so far, all of them deliveries. */
  ghost predicate OnlyDeliveries(o: Outbound, outcomes: seq<bool>) {
    o.losses == LossRing.RingAfter(outcomes) && forall i :: 0 <= i < |outcomes| ==> !outcomes[i]
  }

  lemma {:induction false} AckedAllDelivers(o: Outbound, ks: seq<u16>, now: Instant, outcomes: seq<bool>)
    returns (outcomes': seq<bool>)
    requires GoodRing(o) && OnlyDeliveries(o, outcomes)
    ensures var q := AckedAll(o, ks, now);
      OnlyDeliveries(q, outcomes') && |outcomes'| - |outcomes| == q.totalAcked - o.totalAcked
  {
    outcomes' := outcomes;
    if ks != [] {
      var front, k := ks[..|ks| - 1], ks[|ks| - 1];
      outcomes' := AckedAllDelivers(o, front, now, outcomes);
      if k in AckedAll(o, front, now).sent {
        assert (outcomes' + [false])[..|outcomes'|] == outcomes';
        outcomes' := outcomes' + [false];
      }
    }
  }

  lemma StepDelivers(maxInFlight: nat, o: Outbound, e: Event, o': Outbound, outcomes: seq<bool>)
    returns (outcomes': seq<bool>)
    requires Step(maxInFlight, o, e, o') && OnlyDeliveries(o, outcomes)
    ensures OnlyDeliveries(o', outcomes') && |outcomes'| - |outcomes| == o'.totalAcked - o.totalAcked
  {
    match e
    case Send(k, p) => outcomes' := outcomes;
    case Acks(ack, bits, now) =>
      hide OnlyDeliveries;
      outcomes' := AckedAllDelivers(o, AckOrder(ack, bits, ACK_BITS_WINDOW), now, outcomes);
      SameLosses(AckedAll(o, AckOrder(ack, bits, ACK_BITS_WINDOW), now), o', outcomes');
  }

  lemma SameLosses(o: Outbound, o': Outbound, outcomes: seq<bool>)
    requires OnlyDeliveries(o, outcomes) && o'.losses == o.losses
    ensures OnlyDeliveries(o', outcomes)
  {
  }

  lemma {:induction false} RunDelivers(maxInFlight: nat, run: seq<Outbound>, events: seq<Event>)
    returns (outcomes: seq<bool>)
    requires IsRun(maxInFlight, run, events) && run[0] == NewOutbound()
    ensures OnlyDeliveries(run[|events|], outcomes) && |outcomes| == run[|events|].totalAcked
    decreases |events|
  {
    if events == [] {
      outcomes := [];
    } else {
      var k := |events| - 1;
      hide Step, OnlyDeliveries;
      outcomes := RunDelivers(maxInFlight, run[..k + 1], events[..k]);
      assert run[..k + 1][k] == run[k];
      outcomes := StepDelivers(maxInFlight, run[k], events[k], run[k + 1], outcomes);
    }
  }

  /** Nothing the endpoint does ever records a loss, so the loss it reports is
      zero, however many packets go unacknowledged. */
  lemma ReportedLossIsZero(maxInFlight: nat, run: seq<Outbound>, events: seq<Event>)
    requires IsRun(maxInFlight, run, events) && run[0] == NewOutbound()
    ensures var o, r := run[|events|], run[|events|].losses;
      && GoodRing(o) && r.count == (if o.totalAcked < 256 then o.totalAcked else 256)
      && LossRing.Reported(r) == 0.0
  {
    var outcomes := RunDelivers(maxInFlight, run, events);
    LossRing.RingHolds(outcomes);
    LossRing.ReportsRecentShare(outcomes);
    LossRing.NoneLost(LossRing.Recent(outcomes));
  }
}
