/** When the receiver of a reliable-ordered channel gives up waiting: what a tick
    flushes and what a full buffer evicts, by the moments at which things came. */
module OrderedTimeouts {
  import opened Wrappers
  import opened SequenceNumbers
  import opened Channels
  import opened OrderedDelivery

  /** When a message of that wire number last came. */
  function LastCame(events: seq<Event>, k: u16): Option<Instant> {
    if events == [] then None
    else
      var e := events[|events| - 1];
      if e.Arrive? && Wrap(e.n) == k then Some(e.now) else LastCame(events[..|events| - 1], k)
  }

  lemma LastCameNext(events: seq<Event>, e: Event, k: u16)
    ensures LastCame(events + [e], k) == if e.Arrive? && Wrap(e.n) == k then Some(e.now) else LastCame(events, k)
  {
    assert (events + [e])[..|events|] == events;
  }

  /** What is buffered is dated by the last time it came. */
  ghost predicate Dated(r: Receiving, events: seq<Event>) {
    forall k :: k in r.orderedBuffer ==> LastCame(events, k) == Some(r.orderedBuffer[k].insertedAt)
  }

  lemma BufferIsAhead(config: ChannelConfig, l: Link, order: seq<nat>)
    requires Holds(config, l, order)
    ensures l.receiver.receiveSequence == Wrap(l.position) && Wrap(l.position) !in l.receiver.orderedBuffer
    ensures forall k :: k in l.receiver.orderedBuffer ==> GreaterThan(k, l.receiver.receiveSequence)
  {
    AheadOf(l.position, l.position);
    forall k | k in l.receiver.orderedBuffer
      ensures GreaterThan(k, l.receiver.receiveSequence)
    {
      AheadAfter(l.position, l.position, k);
      AgreesWithinHalfRange(l.position + Ahead(l.position, k), l.position);
    }
  }

  // ---------- what stays in the buffer ----------

  predicate Within(small: map<u16, Buffered>, large: map<u16, Buffered>) {
    forall k :: k in small ==> k in large && small[k] == large[k]
  }

  /** Draining only removes, and delivers the awaited message first if it is there. */
  lemma {:induction false} DrainEffect(r: Receiving)
    ensures Within(Drain(r).orderedBuffer, r.orderedBuffer)
    ensures r.deliveryQueue <= Drain(r).deliveryQueue && Drain(r).messagesDropped == r.messagesDropped
    ensures r.receiveSequence in r.orderedBuffer ==>
      r.deliveryQueue + [r.orderedBuffer[r.receiveSequence].data] <= Drain(r).deliveryQueue
    decreases |r.orderedBuffer|
  {
    if r.receiveSequence in r.orderedBuffer {
      RemovalShrinks(r.orderedBuffer, r.receiveSequence);
      DrainEffect(DeliveredNext(r));
    }
  }

  lemma FlushEffect(r: Receiving, r': Receiving, sent: seq<Bytes>, p: nat, arrived: set<nat>) returns (first: u16)
    requires r.orderedBuffer != map[] && BufferHolds(r, sent, p, arrived, 1) && Flushes(r, r')
    ensures first in r.orderedBuffer && forall k :: k in r.orderedBuffer ==> Ahead(p, first) <= Ahead(p, k)
    ensures r.deliveryQueue + [r.orderedBuffer[first].data] <= r'.deliveryQueue
    ensures Within(r'.orderedBuffer, r.orderedBuffer) && r'.messagesDropped == r.messagesDropped
  {
    first := FlushGoesTo(r, sent, p, arrived, r');
    DrainEffect(SkippedTo(r, first));
  }

  // ---------- ticks ----------

  lemma TimedOutMeans(config: ChannelConfig, r: Receiving, events: seq<Event>, now: Instant)
    requires Dated(r, events)
    ensures TimedOut(config, r, now) <==>
      exists k :: k in r.orderedBuffer && LastCame(events, k).Some?
                  && now - LastCame(events, k).value > config.orderedBufferTimeout
  {
    hide LastCame;
    if TimedOut(config, r, now) {
      var k :| k in r.orderedBuffer && Elapsed(now, r.orderedBuffer[k].insertedAt) > config.orderedBufferTimeout;
      assert LastCame(events, k).Some? && now - LastCame(events, k).value > config.orderedBufferTimeout;
    }
  }

  /** The nearest buffered message ahead of position `p`. */
  ghost predicate IsNearest(r: Receiving, p: nat, first: u16) {
    first in r.orderedBuffer && forall k :: k in r.orderedBuffer ==> (first - p) % 65536 <= (k - p) % 65536
  }

  /** The next message to be delivered is the one buffered under `first`, which no
      other is nearer than. */
  ghost predicate GoesTo(l: Link, l': Link, first: u16) {
    && IsNearest(l.receiver, l.position, first)
    && var n := l.position + (first - l.position) % 65536; n < |l.sent| && Log(l) + [l.sent[n]] <= Log(l')
  }

  lemma TickEffect(config: ChannelConfig, l: Link, order: seq<nat>, now: Instant, l': Link)
    requires config.deliveryMode.ReliableOrdered? && Holds(config, l, order) && Step(config, l, Tick(now), l')
    ensures !TimedOut(config, l.receiver, now) ==> l'.receiver == l.receiver
    ensures Within(l'.receiver.orderedBuffer, l.receiver.orderedBuffer)
    ensures l'.receiver.messagesDropped == l.receiver.messagesDropped
    ensures TimedOut(config, l.receiver, now) ==> exists first: u16 :: GoesTo(l, l', first)
  {
    hide Flushes, Wrap, Delivering, GoesTo, BufferHolds;
    if TimedOut(config, l.receiver, now) {
      var k :| k in l.receiver.orderedBuffer
        && Elapsed(now, l.receiver.orderedBuffer[k].insertedAt) > config.orderedBufferTimeout;
      assert l.receiver.orderedBuffer != map[];
      var first := FlushEffect(l.receiver, l'.receiver, l.sent, l.position, l.arrived);
      assert l'.taken == l.taken && l'.sent == l.sent;
      hide TimedOut, Updates;
      FlushGoes(l, l', first);
    }
  }

  lemma FlushGoes(l: Link, l': Link, first: u16)
    requires BufferHolds(l.receiver, l.sent, l.position, l.arrived, 1) && l'.taken == l.taken
    requires first in l.receiver.orderedBuffer
    requires forall k :: k in l.receiver.orderedBuffer ==> Ahead(l.position, first) <= Ahead(l.position, k)
    requires l.receiver.deliveryQueue + [l.receiver.orderedBuffer[first].data] <= l'.receiver.deliveryQueue
    ensures GoesTo(l, l', first)
  {
    var n := l.position + (first - l.position) % 65536;
    assert n < |l.sent| && l.receiver.orderedBuffer[first].data == l.sent[n];
    assert Log(l) + [l.sent[n]] == l.taken + (l.receiver.deliveryQueue + [l.sent[n]]);
  }

  // ---------- arrivals ----------

  ghost predicate FullFor(config: ChannelConfig, l: Link, e: Event) {
    e.Arrive? && e.n > l.position && l.receiver.orderedBuffer != map[]
    && |l.receiver.orderedBuffer| >= config.maxOrderedBufferSize
  }

  /** The message under `gone` makes room for number `n`. */
  ghost predicate MakesWay(l: Link, n: nat, now: Instant, l': Link, gone: u16)
    requires n < |l.sent|
  {
    gone in l.receiver.orderedBuffer
    && l'.receiver.orderedBuffer == (l.receiver.orderedBuffer - {gone})[Wrap(n) := Buffered(l.sent[n], now)]
  }

  lemma EvictEffect(config: ChannelConfig, l: Link, order: seq<nat>, counted: Receiving, room: Receiving)
    requires Holds(config, l, order) && MakesRoom(config, counted, room)
    requires counted == l.receiver.(bytesReceived := counted.bytesReceived)
    ensures if |counted.orderedBuffer| >= config.maxOrderedBufferSize && counted.orderedBuffer != map[]
            then exists k: u16 :: IsOldest(counted.orderedBuffer, k)
                   && room == counted.(orderedBuffer := counted.orderedBuffer - {k},
                                       gapSequencesSkipped := counted.gapSequencesSkipped + 1,
                                       messagesDropped := counted.messagesDropped + 1)
            else room == counted
  {
    BufferIsAhead(config, l, order);
    hide Holds, Drain, IsOldest;
  }

  lemma AheadEffect(config: ChannelConfig, l: Link, order: seq<nat>, n: nat, wire: Bytes, now: Instant, l': Link)
    requires config.deliveryMode.ReliableOrdered? && Holds(config, l, order) && n > l.position
    requires Step(config, l, Arrive(n, wire, now), l')
    ensures n < |l.sent|
    ensures FullFor(config, l, Arrive(n, wire, now)) ==>
      && l'.receiver.messagesDropped == l.receiver.messagesDropped + 1
      && exists gone: u16 :: IsOldest(l.receiver.orderedBuffer, gone) && MakesWay(l, n, now, l', gone)
    ensures !FullFor(config, l, Arrive(n, wire, now)) ==>
      && l'.receiver.messagesDropped == l.receiver.messagesDropped
      && l'.receiver.orderedBuffer == l.receiver.orderedBuffer[Wrap(n) := Buffered(l.sent[n], now)]
  {
    assert wire == Wire(Wrap(n), l.sent[n]);
    WireParts(Wrap(n), l.sent[n]);
    AgreesWithinHalfRange(n, l.position);
    BufferIsAhead(config, l, order);
    hide Holds, Wrap, GreaterThan, MakesRoom, Wire, IsOldest, Moved;
    var counted := l.receiver.(bytesReceived := l.receiver.bytesReceived + |l.sent[n]|);
    var room :| MakesRoom(config, counted, room) && l'.receiver == Held(room, Wrap(n), l.sent[n], now);
    EvictEffect(config, l, order, counted, room);
    hide Receives, Step;
    if FullFor(config, l, Arrive(n, wire, now)) {
      var gone: u16 :| IsOldest(counted.orderedBuffer, gone)
        && room == counted.(orderedBuffer := counted.orderedBuffer - {gone},
                            gapSequencesSkipped := counted.gapSequencesSkipped + 1,
                            messagesDropped := counted.messagesDropped + 1);
      assert MakesWay(l, n, now, l', gone);
    }
  }

  lemma BehindEffect(config: ChannelConfig, l: Link, order: seq<nat>, n: nat, wire: Bytes, now: Instant, l': Link)
    requires config.deliveryMode.ReliableOrdered? && Holds(config, l, order) && n <= l.position
    requires Step(config, l, Arrive(n, wire, now), l')
    ensures Within(l'.receiver.orderedBuffer, l.receiver.orderedBuffer) && Wrap(n) !in l'.receiver.orderedBuffer
    ensures l'.receiver.messagesDropped == l.receiver.messagesDropped
  {
    assert n < |l.sent| && wire == Wire(Wrap(n), l.sent[n]);
    WireParts(Wrap(n), l.sent[n]);
    AgreesWithinHalfRange(n, l.position);
    BufferIsAhead(config, l, order);
    var counted := l.receiver.(bytesReceived := l.receiver.bytesReceived + |l.sent[n]|);
    DrainEffect(Advanced(Delivered(counted, l.sent[n])));
    hide Holds, Wrap, GreaterThan, MakesRoom, Wire, Moved, Drain;
  }

  // ---------- whole runs ----------

  lemma StepDates(config: ChannelConfig, l: Link, order: seq<nat>, before: seq<Event>, e: Event, l': Link)
    requires config.deliveryMode.ReliableOrdered? && Holds(config, l, order) && Step(config, l, e, l')
    requires Dated(l.receiver, before)
    ensures Dated(l'.receiver, before + [e])
    ensures l'.receiver.messagesDropped == l.receiver.messagesDropped + if FullFor(config, l, e) then 1 else 0
  {
    forall k ensures LastCame(before + [e], k)
      == if e.Arrive? && Wrap(e.n) == k then Some(e.now) else LastCame(before, k) {
      LastCameNext(before, e, k);
    }
    hide LastCame, Holds, Wrap, Receives, Updates, IsOldest;
    match e
    case Arrive(n, wire, now) =>
      if n > l.position { AheadEffect(config, l, order, n, wire, now, l'); }
      else { BehindEffect(config, l, order, n, wire, now, l'); }
    case Tick(now) => TickEffect(config, l, order, now, l');
    case Take =>
    case _ => assert l'.receiver == l.receiver;
  }

  lemma {:induction false} RunDates(config: ChannelConfig, run: seq<Link>, events: seq<Event>, i: nat)
    returns (order: seq<nat>)
    requires config.deliveryMode.ReliableOrdered? && IsRun(config, run, events) && i <= |events|
    ensures Holds(config, run[i], order) && Dated(run[i].receiver, events[..i])
    decreases i
  {
    hide Step, Holds, Dated;
    if i == 0 {
      InitialHolds(config);
      InitialDated();
      order := [];
    } else {
      var before := RunDates(config, run, events, i - 1);
      assert Step(config, run[i - 1], events[i - 1], run[i]);
      assert events[..i] == events[..i - 1] + [events[i - 1]];
      hide IsRun;
      StepDates(config, run[i - 1], before, events[..i - 1], events[i - 1], run[i]);
      order := StepKeeps(config, run[i - 1], events[i - 1], run[i], before);
    }
  }

  lemma InitialDated()
    ensures Dated(INITIAL.receiver, [])
  {
  }

  /** Something buffered last came more than the timeout before `now`. */
  ghost predicate Overdue(config: ChannelConfig, r: Receiving, before: seq<Event>, now: Instant) {
    exists k :: k in r.orderedBuffer && LastCame(before, k).Some?
                && now - LastCame(before, k).value > config.orderedBufferTimeout
  }

  /** A tick does something to the receiver if and only if something it holds last
      came more than the timeout before. Then the next message to be delivered is the
      one of least forward distance. */
  lemma TickFlushesIffOverdue(config: ChannelConfig, run: seq<Link>, events: seq<Event>, i: nat)
    requires config.deliveryMode.ReliableOrdered? && IsRun(config, run, events)
    requires i < |events| && events[i].Tick?
    ensures run[i + 1].receiver != run[i].receiver
       <==> Overdue(config, run[i].receiver, events[..i], events[i].now)
    ensures var l, l' := run[i], run[i + 1];
      Overdue(config, l.receiver, events[..i], events[i].now) ==> exists first: u16 :: GoesTo(l, l', first)
  {
    var order := RunDates(config, run, events, i);
    var l, l', now := run[i], run[i + 1], events[i].now;
    assert Step(config, l, Tick(now), l');
    hide IsRun, Step, Holds, Dated;
    TimedOutMeans(config, l.receiver, events[..i], now);
    TickEffect(config, l, order, now, l');
    SameTaken(config, l, now, l');
    hide LastCame, TimedOut;
    if Overdue(config, l.receiver, events[..i], now) {
      var first: u16 :| GoesTo(l, l', first);
      GoingChanges(l, l', first);
    }
  }

  lemma GoingChanges(l: Link, l': Link, first: u16)
    requires GoesTo(l, l', first) && l'.taken == l.taken
    ensures l'.receiver != l.receiver
  {
    assert |Log(l)| < |Log(l')|;
  }

  lemma SameTaken(config: ChannelConfig, l: Link, now: Instant, l': Link)
    requires Step(config, l, Tick(now), l')
    ensures l'.taken == l.taken
  {
    hide Updates;
  }

  predicate CameNoLater(before: seq<Event>, k: u16, j: u16) {
    LastCame(before, k).Some? && LastCame(before, j).Some? && LastCame(before, k).value <= LastCame(before, j).value
  }

  /** The message that came earliest of those in the buffer. */
  ghost predicate IsEarliest(r: Receiving, before: seq<Event>, k: u16) {
    && k in r.orderedBuffer && LastCame(before, k).Some?
    && forall j :: j in r.orderedBuffer ==> CameNoLater(before, k, j)
  }

  /** A message is dropped if and only if one ahead of the position comes while the
      buffer is full. */
  lemma DropsIffFull(config: ChannelConfig, run: seq<Link>, events: seq<Event>, i: nat)
    requires config.deliveryMode.ReliableOrdered? && IsRun(config, run, events) && i < |events|
    ensures run[i + 1].receiver.messagesDropped
         == run[i].receiver.messagesDropped + if FullFor(config, run[i], events[i]) then 1 else 0
  {
    var order := RunDates(config, run, events, i);
    assert Step(config, run[i], events[i], run[i + 1]);
    hide *;
    StepDates(config, run[i], order, events[..i], events[i], run[i + 1]);
  }

  /** What comes from ahead is held, and of those held before only one that came
      earliest makes room for it, if room is needed. */
  lemma EarliestMakesRoom(config: ChannelConfig, run: seq<Link>, events: seq<Event>, i: nat)
    requires config.deliveryMode.ReliableOrdered? && IsRun(config, run, events)
    requires i < |events| && events[i].Arrive? && events[i].n > run[i].position
    ensures events[i].n < |run[i].sent|
    ensures var l, l', n, now := run[i], run[i + 1], events[i].n, events[i].now;
      if FullFor(config, l, events[i])
      then exists gone: u16 :: IsEarliest(l.receiver, events[..i], gone) && MakesWay(l, n, now, l', gone)
      else l'.receiver.orderedBuffer == l.receiver.orderedBuffer[Wrap(n) := Buffered(l.sent[n], now)]
  {
    var order := RunDates(config, run, events, i);
    var e, l, l' := events[i], run[i], run[i + 1];
    assert Step(config, l, Arrive(e.n, e.wire, e.now), l');
    hide IsRun, Step, Holds, Wrap, LastCame, FullFor, MakesWay;
    AheadEffect(config, l, order, e.n, e.wire, e.now, l');
    if FullFor(config, l, e) {
      var gone: u16 :| IsOldest(l.receiver.orderedBuffer, gone) && MakesWay(l, e.n, e.now, l', gone);
      assert IsEarliest(l.receiver, events[..i], gone);
    }
  }
}
