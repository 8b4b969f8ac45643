/** Two reliable-ordered channels joined by a network that loses, duplicates and
    reorders: what the receiving application sees, over whole runs. */
module OrderedDelivery {
  import opened Wrappers
  import opened SequenceNumbers
  import opened Channels

  /** Arrivals further than this from the receiver's position are not covered. */
  const WINDOW := 32767

  /** A sender and a receiver, with the history that the claims are about. */
  datatype Link = Link(
    sender: Sending,
    receiver: Receiving,
    sent: seq<Bytes>,               // every message `send` has accepted, in order
    pendingIndex: map<u16, nat>,    // which of them each pending number stands for
    network: set<(nat, Bytes)>,     // everything ever put on the wire
    position: nat,                  // the receiver's awaited number, unwrapped
    arrived: set<nat>,              // the messages that have arrived at least once
    taken: seq<Bytes>)              // what the application has received

  const INITIAL := Link(NEW_SENDING, NEW_RECEIVING, [], map[], {}, 0, {}, [])

  datatype Event =
    | Send(data: Bytes, reliable: bool)
    | Emit(now: Instant)
    | Retransmit(now: Instant, rto: nat, out: seq<(u16, Bytes)>)
    | Acknowledge(sequence: u16)
    | MarkFast(sequence: u16, now: Instant)
    | Arrive(n: nat, wire: Bytes, now: Instant)
    | Tick(now: Instant)
    | Take

  /** The receiver's position after its 16-bit number has moved to that of `r`. */
  function Moved(l: Link, r: Receiving): nat {
    l.position + (r.receiveSequence - l.receiver.receiveSequence) % FULL_RANGE
  }

  function IndexOf(l: Link, k: u16): nat { if k in l.pendingIndex then l.pendingIndex[k] else 0 }

  function Emitted(l: Link, now: Instant): Link {
    var (s, out) := AfterOutgoing(l.sender, now);
    if out.None? then l
    else
      var n := if |l.sent| >= |l.sender.sendBuffer| then |l.sent| - |l.sender.sendBuffer| else 0;
      l.(sender := s,
         network := l.network + {(n, out.value.1)},
         pendingIndex := if l.sender.sendBuffer[0].reliable then l.pendingIndex[out.value.0 := n] else l.pendingIndex)
  }

  function Taken(l: Link): Link {
    if l.receiver.deliveryQueue == [] then l
    else l.(receiver := l.receiver.(deliveryQueue := l.receiver.deliveryQueue[1..]),
            taken := l.taken + [l.receiver.deliveryQueue[0]])
  }

  ghost predicate Step(config: ChannelConfig, l: Link, e: Event, l': Link) {
    match e
    case Send(data, reliable) =>
      var (s, r) := AfterSend(config, l.sender, data, reliable);
      l' == l.(sender := s, sent := if r.Pass? then l.sent + [data] else l.sent)
    case Emit(now) => l' == Emitted(l, now)
    case Retransmit(now, rto, out) =>
      && (if config.deliveryMode.IsReliable()
          then Retransmits(config, l.sender.pendingAck, l.sender.pendingAck.Keys, now, rto, out)
          else out == [])
      && l' == l.(sender := AfterRetransmit(config, l.sender, now, rto),
                  network := l.network + set i | 0 <= i < |out| :: (IndexOf(l, out[i].0), out[i].1))
    case Acknowledge(k) => l' == l.(sender := l.sender.(pendingAck := l.sender.pendingAck - {k}))
    case MarkFast(k, now) => l' == l.(sender := AfterMark(l.sender, k, now))
    case Arrive(n, wire, now) =>
      && (n, wire) in l.network
      && -WINDOW <= n - l.position <= WINDOW
      && Receives(config, l.receiver, wire, now, l'.receiver)
      && l' == l.(receiver := l'.receiver, position := Moved(l, l'.receiver), arrived := l.arrived + {n})
    case Tick(now) =>
      && Updates(config, l.receiver, now, l'.receiver)
      && l' == l.(receiver := l'.receiver, position := Moved(l, l'.receiver))
    case Take => l' == Taken(l)
  }

  ghost predicate IsRun(config: ChannelConfig, run: seq<Link>, events: seq<Event>) {
    && |run| == |events| + 1 && run[0] == INITIAL
    && forall i :: 0 <= i < |events| ==> Step(config, run[i], events[i], run[i + 1])
  }

  // ---------- the invariant ----------

  /** How far ahead of position `p` the 16-bit number `k` is. */
  function Ahead(p: nat, k: u16): nat { (k - p) % FULL_RANGE }

  lemma AheadOf(p: nat, n: nat)
    requires p <= n <= p + WINDOW
    ensures Ahead(p, Wrap(n)) == n - p && Wrap(p + Ahead(p, Wrap(n))) == Wrap(n)
  {
  }

  lemma AheadAfter(p: nat, q: nat, k: u16)
    requires p <= q <= p + Ahead(p, k)
    ensures Ahead(q, k) == Ahead(p, k) - (q - p) && Wrap(p + Ahead(p, k)) == k
  {
  }

  lemma OffsetWrap(p: nat, q: nat)
    requires p <= q < p + FULL_RANGE
    ensures (Wrap(q) - Wrap(p)) % FULL_RANGE == q - p
    ensures WrappingSub(Wrap(q), Wrap(p)) == q - p
  {
  }

  ghost predicate StrictlyIncreasing(s: seq<nat>) { forall i, j :: 0 <= i < j < |s| ==> s[i] < s[j] }

  /** The messages of `sent` at the given indices. */
  ghost predicate Picks(log: seq<Bytes>, sent: seq<Bytes>, order: seq<nat>) {
    && |log| == |order|
    && forall i :: 0 <= i < |order| ==> order[i] < |sent| && log[i] == sent[order[i]]
  }

  function Log(l: Link): seq<Bytes> { l.taken + l.receiver.deliveryQueue }

  /** Every buffered number is the true number of the message it carries. It is
      ahead of the position by at least `least`: one, except half-way through a
      step. */
  ghost predicate BufferHolds(r: Receiving, sent: seq<Bytes>, p: nat, arrived: set<nat>, least: nat) {
    forall k :: k in r.orderedBuffer ==>
      var d := Ahead(p, k);
      least <= d <= WINDOW && p + d < |sent| && r.orderedBuffer[k].data == sent[p + d] && p + d in arrived
  }

  /** Nothing that arrived has been forgotten, as long as nothing was evicted. */
  ghost predicate NothingLost(r: Receiving, p: nat, arrived: set<nat>) {
    r.messagesDropped == 0 ==> forall n :: n in arrived ==> n < p || (n <= p + WINDOW && Wrap(n) in r.orderedBuffer)
  }

  ghost predicate Delivering(r: Receiving, log: seq<Bytes>, sent: seq<Bytes>, p: nat, order: seq<nat>,
                             arrived: set<nat>) {
    && r.receiveSequence == Wrap(p) && p <= |sent|
    && Picks(log, sent, order) && StrictlyIncreasing(order)
    && (forall i :: 0 <= i < |order| ==> order[i] < p && order[i] in arrived)
    && r.messagesReceived == |order|
    && p == r.messagesReceived + r.gapSequencesSkipped - r.messagesDropped
    && NothingLost(r, p, arrived)
  }

  /** A limit of zero still lets one message in. */
  function BufferLimit(config: ChannelConfig): (limit: nat)
    ensures limit >= 1
  {
    if config.maxOrderedBufferSize == 0 then 1 else config.maxOrderedBufferSize
  }

  ghost predicate ReceiverHolds(config: ChannelConfig, r: Receiving, log: seq<Bytes>, sent: seq<Bytes>,
                                p: nat, order: seq<nat>, arrived: set<nat>) {
    && Delivering(r, log, sent, p, order, arrived)
    && BufferHolds(r, sent, p, arrived, 1)
    && |r.orderedBuffer| <= BufferLimit(config)
  }

  /** The send buffer is the tail of what was sent, under its own numbers. */
  ghost predicate QueueHolds(buffer: seq<ChannelMessage>, sent: seq<Bytes>) {
    && |buffer| <= |sent|
    && forall i :: 0 <= i < |buffer| ==>
         var n := |sent| - |buffer| + i;
         buffer[i].sequence == Wrap(n) && buffer[i].data == sent[n]
  }

  ghost predicate PendingHolds(pending: map<u16, ChannelMessage>, index: map<u16, nat>, sent: seq<Bytes>) {
    forall k :: k in pending ==>
      k in index && index[k] < |sent| && Wrap(index[k]) == k && pending[k].data == sent[index[k]]
  }

  ghost predicate NetworkHolds(network: set<(nat, Bytes)>, sent: seq<Bytes>) {
    forall m :: m in network ==> m.0 < |sent| && m.1 == Wire(Wrap(m.0), sent[m.0])
  }

  ghost predicate SenderHolds(l: Link) {
    && l.sender.sendSequence == Wrap(|l.sent|)
    && QueueHolds(l.sender.sendBuffer, l.sent)
    && PendingHolds(l.sender.pendingAck, l.pendingIndex, l.sent)
    && NetworkHolds(l.network, l.sent)
  }

  ghost predicate Holds(config: ChannelConfig, l: Link, order: seq<nat>) {
    SenderHolds(l) && ReceiverHolds(config, l.receiver, Log(l), l.sent, l.position, order, l.arrived)
  }

  // ---------- the sender's steps ----------

  lemma SendKeeps(config: ChannelConfig, l: Link, data: Bytes, reliable: bool, l': Link)
    requires SenderHolds(l) && Step(config, l, Send(data, reliable), l')
    ensures SenderHolds(l') && l.sent <= l'.sent
  {
    var (s, r) := AfterSend(config, l.sender, data, reliable);
    if r.Pass? {
      WrapNext(|l.sent|);
      var k := |l.sender.sendBuffer| + 1 - |s.sendBuffer|;
      forall i | 0 <= i < |s.sendBuffer|
        ensures var n := |l'.sent| - |s.sendBuffer| + i;
                s.sendBuffer[i].sequence == Wrap(n) && s.sendBuffer[i].data == l'.sent[n]
      {
        if i < |s.sendBuffer| - 1 { assert s.sendBuffer[i] == l.sender.sendBuffer[i + k]; }
      }
    }
  }

  lemma EmitKeeps(config: ChannelConfig, l: Link, now: Instant, l': Link)
    requires SenderHolds(l) && Step(config, l, Emit(now), l')
    ensures SenderHolds(l') && l.sent == l'.sent
  {
    var buffer := l.sender.sendBuffer;
    if buffer != [] {
      var n := |l.sent| - |buffer|;
      assert buffer[0].sequence == Wrap(n) && buffer[0].data == l.sent[n];
      hide Wrap;
      forall i | 0 <= i < |l'.sender.sendBuffer|
        ensures var j := |l.sent| - |l'.sender.sendBuffer| + i;
                l'.sender.sendBuffer[i].sequence == Wrap(j) && l'.sender.sendBuffer[i].data == l.sent[j]
      {
        assert l'.sender.sendBuffer[i] == buffer[i + 1];
      }
    }
  }

  lemma RetransmitKeeps(config: ChannelConfig, l: Link, now: Instant, rto: nat, out: seq<(u16, Bytes)>, l': Link)
    requires SenderHolds(l) && Step(config, l, Retransmit(now, rto, out), l')
    ensures SenderHolds(l') && l.sent == l'.sent
  {
    hide Wrap, Wire, Due;
    forall m | m in l'.network && m !in l.network
      ensures m.0 < |l.sent| && m.1 == Wire(Wrap(m.0), l.sent[m.0])
    {
      var i :| 0 <= i < |out| && m == (IndexOf(l, out[i].0), out[i].1);
    }
  }

  lemma SenderStep(config: ChannelConfig, l: Link, e: Event, l': Link)
    requires Step(config, l, e, l') && SenderHolds(l)
    ensures SenderHolds(l') && l.sent <= l'.sent
  {
    match e
    case Send(data, reliable) => SendKeeps(config, l, data, reliable, l');
    case Emit(now) => EmitKeeps(config, l, now, l');
    case Retransmit(now, rto, out) => RetransmitKeeps(config, l, now, rto, out, l');
    case _ => hide Wrap, Wire, Receives, Updates;
  }

  // ---------- the receiver's steps ----------

  /** Delivering the awaited message moves the position on by one. */
  lemma DeliverOne(r: Receiving, log: seq<Bytes>, sent: seq<Bytes>, p: nat, order: seq<nat>, arrived: set<nat>,
                   q: Receiving)
    requires Delivering(r, log, sent, p, order, arrived) && p < |sent|
    requires q.receiveSequence == WrappingAdd(r.receiveSequence, 1) && q.messagesReceived == r.messagesReceived + 1
    requires q.gapSequencesSkipped == r.gapSequencesSkipped && q.messagesDropped == r.messagesDropped
    requires q.orderedBuffer == r.orderedBuffer - {r.receiveSequence}
    ensures Delivering(q, log + [sent[p]], sent, p + 1, order + [p], arrived + {p})
  {
    WrapNext(p);
    forall n | q.messagesDropped == 0 && n in arrived && n >= p + 1
      ensures n <= p + WINDOW && Wrap(n) in q.orderedBuffer
    {
      AheadOf(p, n);
      AheadOf(p, p);
    }
  }

  lemma AwaitedIsNext(r: Receiving, sent: seq<Bytes>, p: nat, arrived: set<nat>)
    requires r.receiveSequence == Wrap(p) && BufferHolds(r, sent, p, arrived, 0)
    requires Wrap(p) in r.orderedBuffer
    ensures p < |sent| && p in arrived && r.orderedBuffer[Wrap(p)].data == sent[p]
    ensures p + Ahead(p, Wrap(p)) == p
  {
    AheadOf(p, p);
  }

  lemma BufferMovesOn(r: Receiving, sent: seq<Bytes>, p: nat, arrived: set<nat>, q: Receiving)
    requires BufferHolds(r, sent, p, arrived, 0)
    requires q.orderedBuffer == r.orderedBuffer - {Wrap(p)}
    ensures BufferHolds(q, sent, p + 1, arrived, 0)
    ensures forall k :: k in q.orderedBuffer ==> p + 1 + Ahead(p + 1, k) == p + Ahead(p, k)
  {
    forall k | k in q.orderedBuffer
      ensures Ahead(p, k) >= 1 && Ahead(p + 1, k) == Ahead(p, k) - 1
    {
      AheadAfter(p, p, k);
      AheadAfter(p, p + 1, k);
    }
  }

  lemma {:induction false} DrainKeeps(r: Receiving, taken: seq<Bytes>, sent: seq<Bytes>, p: nat, order: seq<nat>,
                                      arrived: set<nat>, top: nat) returns (p': nat, order': seq<nat>)
    requires Delivering(r, taken + r.deliveryQueue, sent, p, order, arrived)
    requires BufferHolds(r, sent, p, arrived, 0)
    requires p <= top && forall k :: k in r.orderedBuffer ==> p + Ahead(p, k) < top
    ensures var q := Drain(r);
            && p <= p' <= top
            && Delivering(q, taken + q.deliveryQueue, sent, p', order', arrived)
            && BufferHolds(q, sent, p', arrived, 1)
            && |q.orderedBuffer| <= |r.orderedBuffer|
    decreases |r.orderedBuffer|
  {
    if r.receiveSequence in r.orderedBuffer {
      RemovalShrinks(r.orderedBuffer, r.receiveSequence);
      var q := DeliveredNext(r);
      AwaitedIsNext(r, sent, p, arrived);
      DeliverOne(r, taken + r.deliveryQueue, sent, p, order, arrived, q);
      assert arrived + {p} == arrived;
      BufferMovesOn(r, sent, p, arrived, q);
      hide Delivering, BufferHolds, Ahead, Wrap;
      assert taken + q.deliveryQueue == (taken + r.deliveryQueue) + [sent[p]];
      p', order' := DrainKeeps(q, taken, sent, p + 1, order + [p], arrived, top);
    } else {
      forall k | k in r.orderedBuffer
        ensures Ahead(p, k) >= 1
      {
        AheadAfter(p, p, k);
      }
      p', order' := p, order;
    }
  }

  /** The whole of a step that ends in a drain: from a buffer that may hold the
      awaited number to one that does not. */
  lemma DrainRestores(config: ChannelConfig, l: Link, r: Receiving, p: nat, order: seq<nat>, arrived: set<nat>,
                      l': Link)
    returns (order': seq<nat>)
    requires Delivering(r, l.taken + r.deliveryQueue, l.sent, p, order, arrived)
    requires BufferHolds(r, l.sent, p, arrived, 0)
    requires forall k :: k in r.orderedBuffer ==> p + Ahead(p, k) <= l.position + WINDOW
    requires l.position <= p <= l.position + WINDOW + 1 && l.receiver.receiveSequence == Wrap(l.position)
    requires |r.orderedBuffer| <= BufferLimit(config)
    requires l'.receiver == Drain(r)
        && l' == l.(receiver := l'.receiver, position := Moved(l, l'.receiver), arrived := arrived)
    ensures ReceiverHolds(config, l'.receiver, Log(l'), l'.sent, l'.position, order', l'.arrived)
  {
    var p';
    p', order' := DrainKeeps(r, l.taken, l.sent, p, order, arrived, l.position + WINDOW + 1);
    PositionIs(l, l'.receiver, p');
    hide Wrap, Ahead, Drain, BufferHolds, Delivering, Moved;
  }

  lemma PositionIs(l: Link, r: Receiving, p: nat)
    requires l.receiver.receiveSequence == Wrap(l.position) && r.receiveSequence == Wrap(p)
    requires l.position <= p < l.position + FULL_RANGE
    ensures Moved(l, r) == p
  {
    OffsetWrap(l.position, p);
  }

  lemma BufferKnowsMore(r: Receiving, sent: seq<Bytes>, p: nat, arrived: set<nat>, n: nat)
    requires BufferHolds(r, sent, p, arrived, 0)
    ensures BufferHolds(r, sent, p, arrived + {n}, 0)
  {
  }

  lemma BufferInWindow(r: Receiving, sent: seq<Bytes>, p: nat, arrived: set<nat>)
    requires BufferHolds(r, sent, p, arrived, 1)
    ensures forall k :: k in r.orderedBuffer ==> p + Ahead(p, k) <= p + WINDOW
  {
  }

  lemma WireParts(k: u16, data: Bytes)
    ensures var w := Wire(k, data);
            |w| >= SEQUENCE_BYTES && WireSequence(w) == k && w[SEQUENCE_BYTES..] == data
  {
  }

  lemma AwaitedIsDelivered(config: ChannelConfig, r: Receiving, p: nat, data: Bytes, now: Instant, r': Receiving)
    requires config.deliveryMode.ReliableOrdered? && r.receiveSequence == Wrap(p)
    requires Receives(config, r, Wire(Wrap(p), data), now, r')
    ensures r' == Drain(Advanced(Delivered(r.(bytesReceived := r.bytesReceived + |data|), data)))
  {
    WireParts(Wrap(p), data);
    hide Drain;
  }

  /** Half-way through the arrival of the awaited message: it is delivered, and
      the buffer is still to be drained. */
  lemma AwaitedKeeps(config: ChannelConfig, r: Receiving, log: seq<Bytes>, sent: seq<Bytes>,
                     p: nat, order: seq<nat>, arrived: set<nat>, bytes: nat)
    requires ReceiverHolds(config, r, log, sent, p, order, arrived) && p < |sent|
    ensures var q := Advanced(Delivered(r.(bytesReceived := bytes), sent[p]));
            && Delivering(q, log + [sent[p]], sent, p + 1, order + [p], arrived + {p})
            && BufferHolds(q, sent, p + 1, arrived + {p}, 0)
            && forall k :: k in q.orderedBuffer ==> p + 1 + Ahead(p + 1, k) <= p + WINDOW
  {
    var counted := r.(bytesReceived := bytes);
    var q := Advanced(Delivered(counted, sent[p]));
    AheadOf(p, p);
    assert r.orderedBuffer - {Wrap(p)} == r.orderedBuffer;
    CountingKeeps(config, r, log, sent, p, order, arrived, bytes);
    BufferMovesOn(counted, sent, p, arrived, q);
    BufferKnowsMore(q, sent, p + 1, arrived, p);
    BufferInWindow(r, sent, p, arrived);
    hide BufferHolds, Ahead;
    DeliverOne(counted, log, sent, p, order, arrived, q);
  }

  lemma AwaitedArrives(config: ChannelConfig, l: Link, order: seq<nat>, now: Instant, l': Link)
    returns (order': seq<nat>)
    requires config.deliveryMode.ReliableOrdered? && Holds(config, l, order) && l.position < |l.sent|
    requires Receives(config, l.receiver, Wire(Wrap(l.position), l.sent[l.position]), now, l'.receiver)
    requires l' == l.(receiver := l'.receiver, position := Moved(l, l'.receiver), arrived := l.arrived + {l.position})
    ensures ReceiverHolds(config, l'.receiver, Log(l'), l'.sent, l'.position, order', l'.arrived)
  {
    hide Wrap, Wire, Ahead, Delivering, BufferHolds, SenderHolds, Drain, Receives, Moved, Holds, ReceiverHolds,
      BufferLimit, Log;
    var p, data := l.position, l.sent[l.position];
    var bytes := l.receiver.bytesReceived + |data|;
    HoldsMeans(config, l, order);
    AwaitedIsDelivered(config, l.receiver, p, data, now, l'.receiver);
    AwaitedKeeps(config, l.receiver, Log(l), l.sent, p, order, l.arrived, bytes);
    PartsOf(config, l.receiver, Log(l), l.sent, p, order, l.arrived);
    LogGrows(l, bytes, data);
    var q := Advanced(Delivered(l.receiver.(bytesReceived := bytes), data));
    order' := DrainRestores(config, l, q, p + 1, order + [p], l.arrived + {p}, l');
  }

  lemma HoldsMeans(config: ChannelConfig, l: Link, order: seq<nat>)
    requires Holds(config, l, order)
    ensures ReceiverHolds(config, l.receiver, Log(l), l.sent, l.position, order, l.arrived)
    ensures l.receiver.receiveSequence == Wrap(l.position)
  {
    hide Wrap, BufferHolds, SenderHolds;
  }

  lemma LogGrows(l: Link, bytes: nat, data: Bytes)
    ensures var q := Advanced(Delivered(l.receiver.(bytesReceived := bytes), data));
      l.taken + q.deliveryQueue == Log(l) + [data] && q.orderedBuffer == l.receiver.orderedBuffer
  {
  }

  lemma EvictionKeeps(config: ChannelConfig, r: Receiving, log: seq<Bytes>, sent: seq<Bytes>,
                      p: nat, order: seq<nat>, arrived: set<nat>, room: Receiving)
    requires ReceiverHolds(config, r, log, sent, p, order, arrived) && MakesRoom(config, r, room)
    ensures ReceiverHolds(config, room, log, sent, p, order, arrived) && room.deliveryQueue == r.deliveryQueue
    ensures |room.orderedBuffer| < BufferLimit(config)
  {
    if |r.orderedBuffer| >= config.maxOrderedBufferSize && r.orderedBuffer != map[] {
      var k :| IsOldest(r.orderedBuffer, k) && room == EvictedKey(r, k);
      AheadOf(p, p);
      RemovalShrinks(r.orderedBuffer, k);
    }
  }

  lemma PartsOf(config: ChannelConfig, r: Receiving, log: seq<Bytes>, sent: seq<Bytes>,
                p: nat, order: seq<nat>, arrived: set<nat>)
    requires ReceiverHolds(config, r, log, sent, p, order, arrived)
    ensures Delivering(r, log, sent, p, order, arrived) && BufferHolds(r, sent, p, arrived, 1)
    ensures |r.orderedBuffer| <= BufferLimit(config)
  {
    hide Delivering, BufferHolds;
  }

  lemma Joined(config: ChannelConfig, r: Receiving, log: seq<Bytes>, sent: seq<Bytes>,
               p: nat, order: seq<nat>, arrived: set<nat>)
    requires Delivering(r, log, sent, p, order, arrived) && BufferHolds(r, sent, p, arrived, 1)
    requires |r.orderedBuffer| <= BufferLimit(config)
    ensures ReceiverHolds(config, r, log, sent, p, order, arrived)
  {
    hide Delivering, BufferHolds;
  }

  lemma HoldKeepsBuffer(r: Receiving, sent: seq<Bytes>, p: nat, arrived: set<nat>, n: nat, now: Instant)
    requires BufferHolds(r, sent, p, arrived, 1) && p < n <= p + WINDOW && n < |sent|
    ensures BufferHolds(Held(r, Wrap(n), sent[n], now), sent, p, arrived + {n}, 1)
  {
    AheadOf(p, n);
    hide Wrap, Ahead;
  }

  lemma HoldKeepsLog(r: Receiving, log: seq<Bytes>, sent: seq<Bytes>, p: nat, order: seq<nat>, arrived: set<nat>,
                     n: nat, now: Instant)
    requires Delivering(r, log, sent, p, order, arrived) && p < n <= p + WINDOW && n < |sent|
    ensures Delivering(Held(r, Wrap(n), sent[n], now), log, sent, p, order, arrived + {n})
  {
    hide Wrap, Picks, StrictlyIncreasing;
  }

  lemma HoldKeeps(config: ChannelConfig, r: Receiving, log: seq<Bytes>, sent: seq<Bytes>,
                  p: nat, order: seq<nat>, arrived: set<nat>, n: nat, now: Instant)
    requires ReceiverHolds(config, r, log, sent, p, order, arrived)
    requires |r.orderedBuffer| < BufferLimit(config)
    requires p < n <= p + WINDOW && n < |sent|
    ensures ReceiverHolds(config, Held(r, Wrap(n), sent[n], now), log, sent, p, order, arrived + {n})
  {
    hide ReceiverHolds, Delivering, BufferHolds, BufferLimit, Wrap;
    HoldKeepsBuffer(r, sent, p, arrived, n, now) by { PartsOf(config, r, log, sent, p, order, arrived); }
    HoldKeepsLog(r, log, sent, p, order, arrived, n, now) by { PartsOf(config, r, log, sent, p, order, arrived); }
    var q := Held(r, Wrap(n), sent[n], now);
    assert q.orderedBuffer.Keys == r.orderedBuffer.Keys + {Wrap(n)};
    Joined(config, q, log, sent, p, order, arrived + {n});
  }

  lemma CountingKeeps(config: ChannelConfig, r: Receiving, log: seq<Bytes>, sent: seq<Bytes>,
                      p: nat, order: seq<nat>, arrived: set<nat>, bytes: nat)
    requires ReceiverHolds(config, r, log, sent, p, order, arrived)
    ensures ReceiverHolds(config, r.(bytesReceived := bytes), log, sent, p, order, arrived)
  {
    hide Wrap, Ahead;
  }

  lemma AheadArrives(config: ChannelConfig, l: Link, order: seq<nat>, n: nat, now: Instant, l': Link)
    requires config.deliveryMode.ReliableOrdered? && Holds(config, l, order) && n < |l.sent|
    requires l.position < n <= l.position + WINDOW
    requires Receives(config, l.receiver, Wire(Wrap(n), l.sent[n]), now, l'.receiver)
    requires l' == l.(receiver := l'.receiver, position := Moved(l, l'.receiver), arrived := l.arrived + {n})
    ensures ReceiverHolds(config, l'.receiver, Log(l'), l'.sent, l'.position, order, l'.arrived)
  {
    var p, data := l.position, l.sent[n];
    WireParts(Wrap(n), data);
    AgreesWithinHalfRange(n, p);
    var r := l.receiver.(bytesReceived := l.receiver.bytesReceived + |data|);
    var room :| MakesRoom(config, r, room) && l'.receiver == Held(room, Wrap(n), data, now);
    CountingKeeps(config, l.receiver, Log(l), l.sent, p, order, l.arrived, r.bytesReceived);
    hide Wrap, Ahead, Delivering, BufferHolds, SenderHolds, MakesRoom, Wire;
    EvictionKeeps(config, r, Log(l), l.sent, p, order, l.arrived, room);
    HoldKeeps(config, room, Log(l), l.sent, p, order, l.arrived, n, now);
    PositionIs(l, l'.receiver, p);
  }

  lemma StaleKeepsLog(r: Receiving, log: seq<Bytes>, sent: seq<Bytes>, p: nat, order: seq<nat>, arrived: set<nat>,
                      n: nat, bytes: nat)
    requires Delivering(r, log, sent, p, order, arrived) && n < p
    ensures Delivering(r.(bytesReceived := bytes), log, sent, p, order, arrived + {n})
  {
    hide Wrap, Picks, StrictlyIncreasing;
  }

  lemma StaleKeepsBuffer(r: Receiving, sent: seq<Bytes>, p: nat, arrived: set<nat>, n: nat, bytes: nat)
    requires BufferHolds(r, sent, p, arrived, 1)
    ensures BufferHolds(r.(bytesReceived := bytes), sent, p, arrived + {n}, 1)
  {
    hide Ahead;
  }

  lemma StaleKeeps(config: ChannelConfig, r: Receiving, log: seq<Bytes>, sent: seq<Bytes>,
                   p: nat, order: seq<nat>, arrived: set<nat>, n: nat, bytes: nat)
    requires ReceiverHolds(config, r, log, sent, p, order, arrived) && n < p
    ensures ReceiverHolds(config, r.(bytesReceived := bytes), log, sent, p, order, arrived + {n})
  {
    hide *;
    PartsOf(config, r, log, sent, p, order, arrived);
    StaleKeepsLog(r, log, sent, p, order, arrived, n, bytes);
    StaleKeepsBuffer(r, sent, p, arrived, n, bytes);
    Joined(config, r.(bytesReceived := bytes), log, sent, p, order, arrived + {n});
  }

  lemma StaleIsIgnored(config: ChannelConfig, r: Receiving, p: nat, n: nat, data: Bytes, now: Instant, r': Receiving)
    requires config.deliveryMode.ReliableOrdered? && r.receiveSequence == Wrap(p) && p - WINDOW <= n < p
    requires Receives(config, r, Wire(Wrap(n), data), now, r')
    ensures r' == r.(bytesReceived := r.bytesReceived + |data|)
  {
    WireParts(Wrap(n), data);
    AgreesWithinHalfRange(n, p);
  }

  lemma StaleArrives(config: ChannelConfig, l: Link, order: seq<nat>, n: nat, now: Instant, l': Link)
    requires config.deliveryMode.ReliableOrdered? && Holds(config, l, order) && n < |l.sent|
    requires l.position - WINDOW <= n < l.position
    requires Receives(config, l.receiver, Wire(Wrap(n), l.sent[n]), now, l'.receiver)
    requires l' == l.(receiver := l'.receiver, position := Moved(l, l'.receiver), arrived := l.arrived + {n})
    ensures ReceiverHolds(config, l'.receiver, Log(l'), l'.sent, l'.position, order, l'.arrived)
  {
    StaleIsIgnored(config, l.receiver, l.position, n, l.sent[n], now, l'.receiver);
    StaleKeeps(config, l.receiver, Log(l), l.sent, l.position, order, l.arrived, n, l'.receiver.bytesReceived);
    hide ReceiverHolds, Receives, SenderHolds;
  }

  // ---------- flushing ----------

  /** Whatever the order of iteration, the reduction finds the buffered number
      with the least forward distance. */
  lemma {:induction false} ReduceIsLeast(order: seq<u16>, p: nat)
    requires order != [] && forall k :: k in order ==> Ahead(p, k) <= WINDOW
    ensures Reduce(order) in order
    ensures forall k :: k in order ==> Ahead(p, Reduce(order)) <= Ahead(p, k)
  {
    if |order| > 1 {
      var front, b := order[..|order| - 1], order[|order| - 1];
      ReduceIsLeast(front, p);
      var a := Reduce(front);
      AheadAfter(p, p, a);
      AheadAfter(p, p, b);
      AgreesWithinHalfRange(p + Ahead(p, a), p + Ahead(p, b));
      assert forall k :: k in order ==> k in front || k == b;
    }
  }

  lemma SkipKeeps(r: Receiving, log: seq<Bytes>, sent: seq<Bytes>, p: nat, order: seq<nat>, arrived: set<nat>,
                  first: u16)
    requires Delivering(r, log, sent, p, order, arrived) && BufferHolds(r, sent, p, arrived, 1)
    requires first in r.orderedBuffer && forall k :: k in r.orderedBuffer ==> Ahead(p, first) <= Ahead(p, k)
    ensures var p', q := p + Ahead(p, first), SkippedTo(r, first);
            && Delivering(q, log, sent, p', order, arrived)
            && BufferHolds(q, sent, p', arrived, 0)
            && forall k :: k in q.orderedBuffer ==> p' + Ahead(p', k) <= p + WINDOW
  {
    var p', q := p + Ahead(p, first), SkippedTo(r, first);
    AheadAfter(p, p, first);
    OffsetWrap(p, p');
    forall k | k in r.orderedBuffer
      ensures Ahead(p', k) == Ahead(p, k) - (p' - p)
    {
      AheadAfter(p, p', k);
    }
  }

  lemma TickKeeps(config: ChannelConfig, l: Link, order: seq<nat>, now: Instant, l': Link) returns (order': seq<nat>)
    requires config.deliveryMode.ReliableOrdered? && Holds(config, l, order)
    requires Updates(config, l.receiver, now, l'.receiver)
    requires l' == l.(receiver := l'.receiver, position := Moved(l, l'.receiver))
    ensures ReceiverHolds(config, l'.receiver, Log(l'), l'.sent, l'.position, order', l'.arrived)
  {
    var r, p := l.receiver, l.position;
    assert r.receiveSequence == Wrap(p);
    hide Wrap, Ahead, Delivering, BufferHolds, SenderHolds, Drain, Flushes, TimedOut;
    PositionIs(l, r, p);
    order' := order;
    if TimedOut(config, r, now) {
      if r.orderedBuffer == map[] {
        NothingToFlush(r, l'.receiver);
      } else {
        var first := FlushGoesTo(r, l.sent, p, l.arrived, l'.receiver);
        SkipKeeps(r, Log(l), l.sent, p, order, l.arrived, first);
        order' := DrainRestores(config, l, SkippedTo(r, first), p + Ahead(p, first), order, l.arrived, l');
      }
    }
  }

  lemma NothingToFlush(r: Receiving, r': Receiving)
    requires r.orderedBuffer == map[] && Flushes(r, r')
    ensures r' == r
  {
  }

  lemma FlushGoesTo(r: Receiving, sent: seq<Bytes>, p: nat, arrived: set<nat>, r': Receiving) returns (first: u16)
    requires r.orderedBuffer != map[] && BufferHolds(r, sent, p, arrived, 1) && Flushes(r, r')
    ensures first in r.orderedBuffer && Ahead(p, first) <= WINDOW && r' == Drain(SkippedTo(r, first))
    ensures forall k :: k in r.orderedBuffer ==> Ahead(p, first) <= Ahead(p, k)
  {
    var keys: seq<u16> :| IsOrdering(keys, r.orderedBuffer.Keys) && keys != []
      && r' == Drain(SkippedTo(r, Reduce(keys)));
    ReduceIsLeast(keys, p);
    first := Reduce(keys);
  }

  // ---------- whole runs ----------

  lemma MoreSent(config: ChannelConfig, r: Receiving, log: seq<Bytes>, sent: seq<Bytes>, sent': seq<Bytes>,
                 p: nat, order: seq<nat>, arrived: set<nat>)
    requires ReceiverHolds(config, r, log, sent, p, order, arrived) && sent <= sent'
    ensures ReceiverHolds(config, r, log, sent', p, order, arrived)
  {
  }

  lemma StepKeeps(config: ChannelConfig, l: Link, e: Event, l': Link, order: seq<nat>) returns (order': seq<nat>)
    requires config.deliveryMode.ReliableOrdered? && Holds(config, l, order) && Step(config, l, e, l')
    ensures Holds(config, l', order')
  {
    SenderStep(config, l, e, l');
    order' := order;
    hide Delivering, BufferHolds, QueueHolds, PendingHolds, Receives, Updates;
    match e
    case Arrive(n, wire, now) =>
      if n == l.position { order' := AwaitedArrives(config, l, order, now, l'); }
      else if n > l.position { AheadArrives(config, l, order, n, now, l'); }
      else { StaleArrives(config, l, order, n, now, l'); }
    case Tick(now) => order' := TickKeeps(config, l, order, now, l');
    case Take => TakeKeeps(config, l, order);
    case _ => MoreSent(config, l.receiver, Log(l), l.sent, l'.sent, l.position, order, l.arrived);
  }

  lemma TakeKeeps(config: ChannelConfig, l: Link, order: seq<nat>)
    requires Holds(config, l, order)
    ensures ReceiverHolds(config, Taken(l).receiver, Log(Taken(l)), l.sent, l.position, order, l.arrived)
  {
    assert Log(Taken(l)) == Log(l);
  }

  lemma InitialReceiver()
    ensures Delivering(NEW_RECEIVING, [], [], 0, [], {}) && BufferHolds(NEW_RECEIVING, [], 0, {}, 1)
  {
  }

  lemma InitialSender()
    ensures SenderHolds(INITIAL)
  {
  }

  lemma InitialHolds(config: ChannelConfig)
    ensures Holds(config, INITIAL, [])
  {
    InitialReceiver();
    InitialSender();
    hide Delivering, BufferHolds, SenderHolds;
    assert Log(INITIAL) == [];
  }

  lemma RunPrefix(config: ChannelConfig, run: seq<Link>, events: seq<Event>)
    requires IsRun(config, run, events) && events != []
    ensures var k := |events| - 1;
      IsRun(config, run[..k + 1], events[..k]) && Step(config, run[k], events[k], run[k + 1])
  {
    hide Step;
  }

  lemma {:induction false} RunKeeps(config: ChannelConfig, run: seq<Link>, events: seq<Event>) returns (order: seq<nat>)
    requires config.deliveryMode.ReliableOrdered? && IsRun(config, run, events)
    ensures Holds(config, run[|events|], order)
    decreases |events|
  {
    if events == [] {
      order := [];
      InitialHolds(config);
    } else {
      var k := |events| - 1;
      RunPrefix(config, run, events);
      hide *;
      order := RunKeeps(config, run[..k + 1], events[..k]);
      assert run[..k + 1][k] == run[k];
      order := StepKeeps(config, run[k], events[k], run[k + 1], order);
    }
  }

  /** A strictly increasing list of p numbers below p is 0, 1, ..., p - 1. */
  lemma {:induction false} FullIsIdentity(order: seq<nat>, p: nat)
    requires StrictlyIncreasing(order) && |order| == p && forall i :: 0 <= i < p ==> order[i] < p
    ensures forall i :: 0 <= i < p ==> order[i] == i
  {
    if p > 0 {
      var front := order[..p - 1];
      forall i | 0 <= i < p - 1
        ensures front[i] < p - 1
      {
        assert front[i] < order[p - 1];
      }
      FullIsIdentity(front, p - 1);
      if p > 1 { assert order[p - 2] < order[p - 1]; }
    }
  }

  lemma PrefixWhileNothingSkipped(config: ChannelConfig, l: Link, order: seq<nat>)
    requires Holds(config, l, order) && l.receiver.gapSequencesSkipped == l.receiver.messagesDropped
    ensures l.position <= |l.sent| && Log(l) == l.sent[..l.position]
    ensures forall n :: 0 <= n < l.position ==> n in l.arrived
  {
    FullIsIdentity(order, l.position);
    hide SenderHolds, BufferHolds, NothingLost, Log, Wrap;
    forall n | 0 <= n < l.position
      ensures Log(l)[n] == l.sent[n] && n in l.arrived
    {
      assert order[n] == n;
    }
  }

  lemma AwaitedHasNotArrived(config: ChannelConfig, l: Link, order: seq<nat>)
    requires Holds(config, l, order) && l.receiver.messagesDropped == 0
    ensures l.position !in l.arrived
  {
    AheadOf(l.position, l.position);
  }

  /** What the application has seen, in every reachable state of every run: a
      strictly increasing choice of what was sent; as long as no gap has been
      flushed, a prefix of it; and as long as nothing has been evicted either,
      exactly the prefix that has arrived without a gap. */
  lemma DeliveredInOrder(config: ChannelConfig, run: seq<Link>, events: seq<Event>)
    requires config.deliveryMode.ReliableOrdered? && IsRun(config, run, events)
    ensures var l := run[|events|];
      exists order: seq<nat> :: StrictlyIncreasing(order) && Picks(Log(l), l.sent, order)
    ensures var l := run[|events|];
      l.receiver.gapSequencesSkipped == l.receiver.messagesDropped ==>
        l.position <= |l.sent| && Log(l) == l.sent[..l.position]
    ensures var l := run[|events|];
      l.receiver.gapSequencesSkipped == l.receiver.messagesDropped == 0 ==>
        l.position !in l.arrived && forall n :: 0 <= n < l.position ==> n in l.arrived
  {
    var order := RunKeeps(config, run, events);
    var l := run[|events|];
    if l.receiver.gapSequencesSkipped == l.receiver.messagesDropped {
      PrefixWhileNothingSkipped(config, l, order);
    }
    if l.receiver.messagesDropped == 0 { AwaitedHasNotArrived(config, l, order); }
    assert StrictlyIncreasing(order) && Picks(Log(l), l.sent, order);
  }

  /** The counters account for every number the position has passed, the awaited
      number is never in the buffer, everything buffered is ahead of it, and the
      buffer keeps to its limit. */
  lemma ReceiverAccounting(config: ChannelConfig, run: seq<Link>, events: seq<Event>)
    requires config.deliveryMode.ReliableOrdered? && IsRun(config, run, events)
    ensures var l := run[|events|]; var r := l.receiver;
      && l.position == r.messagesReceived + r.gapSequencesSkipped - r.messagesDropped
      && r.receiveSequence == Wrap(l.position) && |Log(l)| == r.messagesReceived
      && r.receiveSequence !in r.orderedBuffer
      && (forall k :: k in r.orderedBuffer ==> GreaterThan(k, r.receiveSequence))
      && (config.maxOrderedBufferSize > 0 ==> |r.orderedBuffer| <= config.maxOrderedBufferSize)
  {
    var order := RunKeeps(config, run, events);
    var l := run[|events|];
    AheadOf(l.position, l.position);
    forall k | k in l.receiver.orderedBuffer
      ensures GreaterThan(k, l.receiver.receiveSequence)
    {
      AheadAfter(l.position, l.position, k);
      AgreesWithinHalfRange(l.position + Ahead(l.position, k), l.position);
    }
  }

  // ---------- the window cannot be widened ----------

  lemma {:induction false} DrainOnlyRemoves(r: Receiving)
    ensures Drain(r).orderedBuffer.Keys <= r.orderedBuffer.Keys
    decreases |r.orderedBuffer|
  {
    if r.receiveSequence in r.orderedBuffer {
      RemovalShrinks(r.orderedBuffer, r.receiveSequence);
      DrainOnlyRemoves(DeliveredNext(r));
    }
  }

  /** Whatever the state, a message that is not held yet is held if its number
      compares as ahead of the awaited one, and not otherwise. */
  lemma HeldIffAhead(config: ChannelConfig, r: Receiving, sequence: u16, data: Bytes, now: Instant, r': Receiving)
    requires config.deliveryMode.ReliableOrdered? && sequence !in r.orderedBuffer
    requires Receives(config, r, Wire(sequence, data), now, r')
    ensures sequence in r'.orderedBuffer <==> GreaterThan(sequence, r.receiveSequence)
  {
    WireParts(sequence, data);
    if sequence == r.receiveSequence {
      DrainOnlyRemoves(Advanced(Delivered(r.(bytesReceived := r.bytesReceived + |data|), data)));
    }
    hide Drain, MakesRoom;
  }

  /** So the window cannot be widened: of the messages less than the whole space
      away, those the receiver rightly holds, or rightly does not, are the ones
      less than half of it away, and at exactly half one of the two sides. */
  lemma WindowIsTight(config: ChannelConfig, r: Receiving, p: nat, n: nat, data: Bytes, now: Instant, r': Receiving)
    requires config.deliveryMode.ReliableOrdered? && r.receiveSequence == Wrap(p) && -FULL_RANGE < n - p < FULL_RANGE
    requires Wrap(n) !in r.orderedBuffer && Receives(config, r, Wire(Wrap(n), data), now, r')
    ensures (Wrap(n) in r'.orderedBuffer <==> n > p) <==> Unambiguous(n, p)
  {
    HeldIffAhead(config, r, Wrap(n), data, now, r');
    ComparesRightlyIff(n, p);
  }
}
