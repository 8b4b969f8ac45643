/** A message channel with five delivery modes: its state, its operations as
    changes of that state, and the class that carries them out in place. */
module Channels {
  import opened Wrappers
  import opened SequenceNumbers

  const SEQUENCE_BYTES := 2
  const MAX_BACKOFF_EXPONENT := 5

  /** How far in the past a fast retransmit backdates a message: 60 seconds. */
  const FAST_RETRANSMIT_BACKDATE := 60_000

  datatype DeliveryMode =
    | Unreliable
    | UnreliableSequenced
    | ReliableUnordered
    | ReliableOrdered
    | ReliableSequenced
  {
    predicate IsReliable() { ReliableUnordered? || ReliableOrdered? || ReliableSequenced? }
    predicate IsSequenced() { UnreliableSequenced? || ReliableSequenced? }
  }

  datatype ChannelConfig = ChannelConfig(
    deliveryMode: DeliveryMode,
    maxMessageSize: nat,
    messageBufferSize: nat,
    blockOnFull: bool,
    orderedBufferTimeout: nat,
    maxOrderedBufferSize: nat,
    maxReliableRetries: nat)

  datatype ChannelError = BufferFull | MessageTooLarge

  datatype ChannelMessage = ChannelMessage(
    sequence: u16,
    data: Bytes,
    sendTime: Option<Instant>,
    retryCount: nat,
    reliable: bool)

  /** An out-of-order message held back, and when it was. */
  datatype Buffered = Buffered(data: Bytes, insertedAt: Instant)

  datatype Sending = Sending(
    sendSequence: u16,
    sendBuffer: seq<ChannelMessage>,
    pendingAck: map<u16, ChannelMessage>,
    messagesSent: nat,
    bytesSent: nat)

  datatype Receiving = Receiving(
    receiveSequence: u16,
    lastReceivedSequence: u16,
    orderedBuffer: map<u16, Buffered>,
    deliveryQueue: seq<Bytes>,
    messagesReceived: nat,
    bytesReceived: nat,
    gapSequencesSkipped: nat,
    messagesDropped: nat)

  const NEW_SENDING := Sending(0, [], map[], 0, 0)
  const NEW_RECEIVING := Receiving(0, 0, map[], [], 0, 0, 0, 0)

  // ---------- wire format ----------

  function Wire(sequence: u16, data: Bytes): Bytes { [sequence / 256, sequence % 256] + data }

  function WireSequence(wire: Bytes): u16
    requires |wire| >= SEQUENCE_BYTES
  {
    256 * (wire[0] as int) + wire[1]
  }

  // ---------- sending ----------

  function AfterSend(config: ChannelConfig, s: Sending, data: Bytes, reliable: bool): (Sending, Outcome<ChannelError>) {
    if |data| > config.maxMessageSize then (s, Fail(MessageTooLarge))
    else
      var full := |s.sendBuffer| >= config.messageBufferSize;
      if full && config.blockOnFull then (s, Fail(BufferFull))
      else
        var kept := if full && s.sendBuffer != [] then s.sendBuffer[1..] else s.sendBuffer;
        var message := ChannelMessage(s.sendSequence, data, None, 0, reliable);
        (Sending(WrappingAdd(s.sendSequence, 1), kept + [message], s.pendingAck,
                 s.messagesSent + 1, s.bytesSent + |data|),
         Pass)
  }

  function AfterOutgoing(s: Sending, now: Instant): (Sending, Option<(u16, Bytes)>) {
    if s.sendBuffer == [] then (s, None)
    else
      var message := s.sendBuffer[0];
      var pending := if message.reliable
                     then s.pendingAck[message.sequence := message.(sendTime := Some(now))]
                     else s.pendingAck;
      (s.(sendBuffer := s.sendBuffer[1..], pendingAck := pending),
       Some((message.sequence, Wire(message.sequence, message.data))))
  }

  function Backoff(retryCount: nat): nat {
    var exponent := if retryCount <= MAX_BACKOFF_EXPONENT then retryCount else MAX_BACKOFF_EXPONENT;
    [1, 2, 4, 8, 16, 32][exponent]
  }

  predicate Due(message: ChannelMessage, now: Instant, rto: nat) {
    message.sendTime.Some? && Elapsed(now, message.sendTime.value) >= rto * Backoff(message.retryCount)
  }

  predicate Expired(config: ChannelConfig, message: ChannelMessage, now: Instant, rto: nat) {
    Due(message, now, rto) && message.retryCount >= config.maxReliableRetries
  }

  predicate Resent(config: ChannelConfig, message: ChannelMessage, now: Instant, rto: nat) {
    Due(message, now, rto) && message.retryCount < config.maxReliableRetries
  }

  function Touched(config: ChannelConfig, message: ChannelMessage, now: Instant, rto: nat): ChannelMessage {
    if Resent(config, message, now, rto)
    then message.(retryCount := message.retryCount + 1, sendTime := Some(now))
    else message
  }

  function AfterRetransmit(config: ChannelConfig, s: Sending, now: Instant, rto: nat): Sending {
    if !config.deliveryMode.IsReliable() then s
    else s.(pendingAck := map k | k in s.pendingAck && !Expired(config, s.pendingAck[k], now, rto)
                              :: Touched(config, s.pendingAck[k], now, rto))
  }

  /** A message marked for fast retransmit looks as if sent a minute ago. */
  function AfterMark(s: Sending, sequence: u16, now: Instant): Sending {
    if sequence !in s.pendingAck then s
    else s.(pendingAck := s.pendingAck[sequence := s.pendingAck[sequence].(
                            sendTime := Some(now - FAST_RETRANSMIT_BACKDATE))])
  }

  /** The messages of `keys` that are due again, each once, in any order. */
  ghost predicate Retransmits(config: ChannelConfig, pending: map<u16, ChannelMessage>, keys: set<u16>,
                              now: Instant, rto: nat, out: seq<(u16, Bytes)>)
    requires keys <= pending.Keys
  {
    && (forall i, j :: 0 <= i < j < |out| ==> out[i].0 != out[j].0)
    && (forall i :: 0 <= i < |out| ==>
          && out[i].0 in keys
          && Resent(config, pending[out[i].0], now, rto)
          && out[i].1 == Wire(out[i].0, pending[out[i].0].data))
    && (forall k :: k in keys && Resent(config, pending[k], now, rto) ==> k in KeysOf(out))
  }

  ghost function KeysOf(out: seq<(u16, Bytes)>): set<u16> { set i | 0 <= i < |out| :: out[i].0 }

  /** Where the scan of the pending messages stands: those in `left` are still
      to be looked at. */
  ghost predicate Scanned(config: ChannelConfig, before: map<u16, ChannelMessage>, left: set<u16>,
                          now: Instant, rto: nat,
                          pending: map<u16, ChannelMessage>, expired: set<u16>, out: seq<(u16, Bytes)>)
  {
    && left <= before.Keys
    && pending == (map k | k in before :: if k in left then before[k] else Touched(config, before[k], now, rto))
    && expired == (set k | k in before.Keys - left && Expired(config, before[k], now, rto))
    && Retransmits(config, before, before.Keys - left, now, rto, out)
  }

  lemma ScanStep(config: ChannelConfig, before: map<u16, ChannelMessage>, left: set<u16>,
                 now: Instant, rto: nat,
                 pending: map<u16, ChannelMessage>, expired: set<u16>, out: seq<(u16, Bytes)>, k: u16)
    requires Scanned(config, before, left, now, rto, pending, expired, out) && k in left
    ensures k in pending && pending[k] == before[k]
    ensures
      var m, rest := pending[k], left - {k};
      if Expired(config, m, now, rto) then Scanned(config, before, rest, now, rto, pending, expired + {k}, out)
      else if Resent(config, m, now, rto) then
        Scanned(config, before, rest, now, rto,
                pending[k := m.(retryCount := m.retryCount + 1, sendTime := Some(now))],
                expired, out + [(k, Wire(k, m.data))])
      else Scanned(config, before, rest, now, rto, pending, expired, out)
  {
    assert before.Keys - (left - {k}) == before.Keys - left + {k};
    var m := before[k];
    hide Due;
    if Resent(config, m, now, rto) { OneMoreKey(out, (k, Wire(k, m.data))); }
  }

  lemma ScanStarts(config: ChannelConfig, before: map<u16, ChannelMessage>, now: Instant, rto: nat)
    ensures Scanned(config, before, before.Keys, now, rto, before, {}, [])
  {
  }

  lemma ScanEnds(config: ChannelConfig, s: Sending, now: Instant, rto: nat,
                 pending: map<u16, ChannelMessage>, expired: set<u16>, out: seq<(u16, Bytes)>)
    requires Scanned(config, s.pendingAck, {}, now, rto, pending, expired, out) && config.deliveryMode.IsReliable()
    ensures AfterRetransmit(config, s, now, rto) == s.(pendingAck := pending - expired)
    ensures Retransmits(config, s.pendingAck, s.pendingAck.Keys, now, rto, out)
  {
    assert s.pendingAck.Keys - {} == s.pendingAck.Keys;
    hide Due;
    assert pending - expired == AfterRetransmit(config, s, now, rto).pendingAck;
  }

  lemma OneMoreKey(out: seq<(u16, Bytes)>, next: (u16, Bytes))
    ensures KeysOf(out + [next]) == KeysOf(out) + {next.0}
  {
    var longer := out + [next];
    assert longer[|out|] == next;
    forall k | k in KeysOf(out)
      ensures k in KeysOf(longer)
    {
      var i :| 0 <= i < |out| && out[i].0 == k;
      assert longer[i].0 == k;
    }
  }

  // ---------- receiving ----------

  function Delivered(r: Receiving, data: Bytes): Receiving {
    r.(deliveryQueue := r.deliveryQueue + [data], messagesReceived := r.messagesReceived + 1)
  }

  function Advanced(r: Receiving): Receiving { r.(receiveSequence := WrappingAdd(r.receiveSequence, 1)) }

  /** Takes the awaited message out of the reorder buffer and delivers it. */
  function DeliveredNext(r: Receiving): Receiving
    requires r.receiveSequence in r.orderedBuffer
  {
    var data := r.orderedBuffer[r.receiveSequence].data;
    Advanced(Delivered(r.(orderedBuffer := r.orderedBuffer - {r.receiveSequence}), data))
  }

  /** Delivers from the reorder buffer for as long as the next number is there. */
  function Drain(r: Receiving): Receiving
    decreases |r.orderedBuffer|
  {
    if r.receiveSequence in r.orderedBuffer then
      assert |r.orderedBuffer - {r.receiveSequence}| < |r.orderedBuffer| by {
        RemovalShrinks(r.orderedBuffer, r.receiveSequence);
      }
      Drain(DeliveredNext(r))
    else r
  }

  ghost predicate IsOldest(buffer: map<u16, Buffered>, k: u16) {
    k in buffer && forall j :: j in buffer ==> buffer[k].insertedAt <= buffer[j].insertedAt
  }

  function EvictedKey(r: Receiving, k: u16): Receiving
    requires k in r.orderedBuffer
  {
    var gone := r.(orderedBuffer := r.orderedBuffer - {k},
                   gapSequencesSkipped := r.gapSequencesSkipped + 1,
                   messagesDropped := r.messagesDropped + 1);
    if k == r.receiveSequence then Drain(Advanced(gone)) else gone
  }

  /** Any entry that no other entry predates may be the one evicted. */
  ghost predicate Evicts(r: Receiving, r': Receiving) {
    if r.orderedBuffer == map[] then r' == r
    else exists k :: IsOldest(r.orderedBuffer, k) && r' == EvictedKey(r, k)
  }

  ghost predicate MakesRoom(config: ChannelConfig, r: Receiving, r': Receiving) {
    if |r.orderedBuffer| >= config.maxOrderedBufferSize then Evicts(r, r') else r' == r
  }

  function Held(r: Receiving, sequence: u16, data: Bytes, now: Instant): Receiving {
    r.(orderedBuffer := r.orderedBuffer[sequence := Buffered(data, now)])
  }

  ghost predicate ReceivesOrdered(config: ChannelConfig, r: Receiving, sequence: u16, data: Bytes, now: Instant,
                                  r': Receiving) {
    if sequence == r.receiveSequence then r' == Drain(Advanced(Delivered(r, data)))
    else if GreaterThan(sequence, r.receiveSequence) then
      exists room :: MakesRoom(config, r, room) && r' == Held(room, sequence, data, now)
    else r' == r
  }

  function ReceivedSequenced(r: Receiving, sequence: u16, data: Bytes): Receiving {
    if GreaterThan(sequence, r.lastReceivedSequence) || r.messagesReceived == 0
    then Delivered(r.(lastReceivedSequence := sequence), data)
    else r
  }

  ghost predicate Receives(config: ChannelConfig, r: Receiving, wire: Bytes, now: Instant, r': Receiving) {
    if |wire| < SEQUENCE_BYTES then r' == Delivered(r, wire)
    else
      var sequence, data := WireSequence(wire), wire[SEQUENCE_BYTES..];
      var counted := r.(bytesReceived := r.bytesReceived + |data|);
      match config.deliveryMode
      case ReliableOrdered => ReceivesOrdered(config, counted, sequence, data, now, r')
      case UnreliableSequenced => r' == ReceivedSequenced(counted, sequence, data)
      case ReliableSequenced => r' == ReceivedSequenced(counted, sequence, data)
      case _ => r' == Delivered(counted, data)
  }

  // ---------- flushing a gap ----------

  ghost predicate IsOrdering(order: seq<u16>, keys: set<u16>) {
    && (forall i, j :: 0 <= i < j < |order| ==> order[i] != order[j])
    && (forall k :: k in keys <==> k in order)
  }

  /** The pairwise reduction over the buffered keys, in a given order. */
  function Reduce(order: seq<u16>): u16
    requires order != []
  {
    if |order| == 1 then order[0]
    else
      var a, b := Reduce(order[..|order| - 1]), order[|order| - 1];
      if GreaterThan(a, b) then b else a
  }

  function SkippedTo(r: Receiving, first: u16): Receiving {
    r.(gapSequencesSkipped := r.gapSequencesSkipped + WrappingSub(first, r.receiveSequence),
       receiveSequence := first)
  }

  lemma CloserByOne(first: u16, sequence: u16)
    requires sequence != first
    ensures WrappingSub(first, WrappingAdd(sequence, 1)) == WrappingSub(first, sequence) - 1
  {
  }

  ghost predicate Flushes(r: Receiving, r': Receiving) {
    if r.orderedBuffer == map[] then r' == r
    else exists order: seq<u16> ::
        && IsOrdering(order, r.orderedBuffer.Keys) && order != []
        && r' == Drain(SkippedTo(r, Reduce(order)))
  }

  ghost predicate TimedOut(config: ChannelConfig, r: Receiving, now: Instant) {
    exists k :: k in r.orderedBuffer && Elapsed(now, r.orderedBuffer[k].insertedAt) > config.orderedBufferTimeout
  }

  ghost predicate Updates(config: ChannelConfig, r: Receiving, now: Instant, r': Receiving) {
    if config.deliveryMode.ReliableOrdered? && TimedOut(config, r, now) then Flushes(r, r') else r' == r
  }

  // ---------- the channel ----------

  class Channel {
    const config: ChannelConfig

    var sendSequence: u16
    var sendBuffer: seq<ChannelMessage>
    var pendingAck: map<u16, ChannelMessage>

    var receiveSequence: u16
    var lastReceivedSequence: u16
    var orderedReceiveBuffer: map<u16, Buffered>
    var deliveryQueue: seq<Bytes>

    var messagesSent: nat
    var messagesReceived: nat
    var bytesSent: nat
    var bytesReceived: nat
    var gapSequencesSkipped: nat
    var messagesDropped: nat

    ghost function Sender(): Sending
      reads this`sendSequence, this`sendBuffer, this`pendingAck, this`messagesSent, this`bytesSent
    {
      Sending(sendSequence, sendBuffer, pendingAck, messagesSent, bytesSent)
    }

    ghost function Receiver(): Receiving
      reads this`receiveSequence, this`lastReceivedSequence, this`orderedReceiveBuffer, this`deliveryQueue,
            this`messagesReceived, this`bytesReceived, this`gapSequencesSkipped, this`messagesDropped
    {
      Receiving(receiveSequence, lastReceivedSequence, orderedReceiveBuffer, deliveryQueue,
                messagesReceived, bytesReceived, gapSequencesSkipped, messagesDropped)
    }

    constructor (config: ChannelConfig)
      ensures this.config == config && Sender() == NEW_SENDING && Receiver() == NEW_RECEIVING
    {
      this.config := config;
      sendSequence, sendBuffer, pendingAck := 0, [], map[];
      receiveSequence, lastReceivedSequence, orderedReceiveBuffer, deliveryQueue := 0, 0, map[], [];
      messagesSent, messagesReceived, bytesSent, bytesReceived := 0, 0, 0, 0;
      gapSequencesSkipped, messagesDropped := 0, 0;
    }

    method Send(data: Bytes, reliable: bool) returns (r: Outcome<ChannelError>)
      modifies this`sendSequence, this`sendBuffer, this`messagesSent, this`bytesSent
      ensures (Sender(), r) == AfterSend(config, old(Sender()), data, reliable)
    {
      if |data| > config.maxMessageSize { return Fail(MessageTooLarge); }
      if |sendBuffer| >= config.messageBufferSize {
        if config.blockOnFull { return Fail(BufferFull); }
        if sendBuffer != [] { sendBuffer := sendBuffer[1..]; }
      }
      var message := ChannelMessage(sendSequence, data, None, 0, reliable);
      sendSequence := WrappingAdd(sendSequence, 1);
      sendBuffer := sendBuffer + [message];
      messagesSent, bytesSent := messagesSent + 1, bytesSent + |data|;
      return Pass;
    }

    method GetOutgoingMessage(now: Instant) returns (out: Option<(u16, Bytes)>)
      modifies this`sendBuffer, this`pendingAck
      ensures (Sender(), out) == AfterOutgoing(old(Sender()), now)
    {
      if sendBuffer == [] { return None; }
      var message := sendBuffer[0];
      sendBuffer := sendBuffer[1..];
      if message.reliable {
        pendingAck := pendingAck[message.sequence := message.(sendTime := Some(now))];
      }
      return Some((message.sequence, Wire(message.sequence, message.data)));
    }

    method GetRetransmitMessages(now: Instant, rto: nat) returns (retransmits: seq<(u16, Bytes)>)
      modifies this`pendingAck
      ensures Sender() == AfterRetransmit(config, old(Sender()), now, rto)
      ensures if config.deliveryMode.IsReliable()
              then Retransmits(config, old(pendingAck), old(pendingAck).Keys, now, rto, retransmits)
              else retransmits == []
    {
      if !config.deliveryMode.IsReliable() { return []; }
      hide Scanned, Backoff;
      retransmits := [];
      var expired: set<u16> := {};
      ghost var before := pendingAck;
      var left := pendingAck.Keys;
      ScanStarts(config, before, now, rto);
      while left != {}
        invariant Scanned(config, before, left, now, rto, pendingAck, expired, retransmits)
        decreases |left|
      {
        var sequence :| sequence in left;
        ScanStep(config, before, left, now, rto, pendingAck, expired, retransmits, sequence);
        left := left - {sequence};
        var message := pendingAck[sequence];
        if message.sendTime.Some? {
          if Elapsed(now, message.sendTime.value) >= rto * Backoff(message.retryCount) {
            if message.retryCount >= config.maxReliableRetries {
              expired := expired + {sequence};
            } else {
              var again := message.(retryCount := message.retryCount + 1, sendTime := Some(now));
              pendingAck := pendingAck[sequence := again];
              retransmits := retransmits + [(sequence, Wire(sequence, message.data))];
            }
          }
        }
      }
      ScanEnds(config, old(Sender()), now, rto, pendingAck, expired, retransmits);
      pendingAck := pendingAck - expired;
    }

    method AcknowledgeMessage(sequence: u16)
      modifies this`pendingAck
      ensures pendingAck == old(pendingAck) - {sequence}
    {
      pendingAck := pendingAck - {sequence};
    }

    method MarkForFastRetransmit(sequence: u16, now: Instant)
      modifies this`pendingAck
      ensures Sender() == AfterMark(old(Sender()), sequence, now)
    {
      if sequence in pendingAck {
        pendingAck := pendingAck[sequence := pendingAck[sequence].(sendTime := Some(now - FAST_RETRANSMIT_BACKDATE))];
      }
    }

    method OnPacketReceived(wire: Bytes, now: Instant)
      modifies this`receiveSequence, this`lastReceivedSequence, this`orderedReceiveBuffer, this`deliveryQueue,
               this`messagesReceived, this`bytesReceived, this`gapSequencesSkipped, this`messagesDropped
      ensures Receives(config, old(Receiver()), wire, now, Receiver())
    {
      hide Drain, Evicts, GreaterThan;
      if |wire| < SEQUENCE_BYTES {
        deliveryQueue, messagesReceived := deliveryQueue + [wire], messagesReceived + 1;
        return;
      }
      var sequence := 256 * (wire[0] as int) + wire[1];
      var data := wire[SEQUENCE_BYTES..];
      bytesReceived := bytesReceived + |data|;
      match config.deliveryMode {
        case ReliableOrdered =>
          if sequence == receiveSequence {
            deliveryQueue, messagesReceived := deliveryQueue + [data], messagesReceived + 1;
            receiveSequence := WrappingAdd(receiveSequence, 1);
            DrainBuffered();
          } else if GreaterThan(sequence, receiveSequence) {
            ghost var counted := Receiver();
            if |orderedReceiveBuffer| >= config.maxOrderedBufferSize {
              EvictOldestBuffered();
            }
            ghost var room := Receiver();
            assert MakesRoom(config, counted, room);
            orderedReceiveBuffer := orderedReceiveBuffer[sequence := Buffered(data, now)];
          }
        case UnreliableSequenced =>
          if GreaterThan(sequence, lastReceivedSequence) || messagesReceived == 0 {
            lastReceivedSequence := sequence;
            deliveryQueue, messagesReceived := deliveryQueue + [data], messagesReceived + 1;
          }
        case ReliableSequenced =>
          if GreaterThan(sequence, lastReceivedSequence) || messagesReceived == 0 {
            lastReceivedSequence := sequence;
            deliveryQueue, messagesReceived := deliveryQueue + [data], messagesReceived + 1;
          }
        case _ =>
          deliveryQueue, messagesReceived := deliveryQueue + [data], messagesReceived + 1;
      }
    }

    /** The loop that empties the front of the reorder buffer. */
    method DrainBuffered()
      modifies this`receiveSequence, this`orderedReceiveBuffer, this`deliveryQueue, this`messagesReceived
      ensures Receiver() == Drain(old(Receiver()))
    {
      while receiveSequence in orderedReceiveBuffer
        invariant Drain(Receiver()) == Drain(old(Receiver()))
        decreases |orderedReceiveBuffer|
      {
        RemovalShrinks(orderedReceiveBuffer, receiveSequence);
        var data := orderedReceiveBuffer[receiveSequence].data;
        orderedReceiveBuffer := orderedReceiveBuffer - {receiveSequence};
        deliveryQueue, messagesReceived := deliveryQueue + [data], messagesReceived + 1;
        receiveSequence := WrappingAdd(receiveSequence, 1);
      }
    }

    method EvictOldestBuffered()
      modifies this`receiveSequence, this`orderedReceiveBuffer, this`deliveryQueue,
               this`messagesReceived, this`gapSequencesSkipped, this`messagesDropped
      ensures Evicts(old(Receiver()), Receiver())
    {
      if orderedReceiveBuffer == map[] { return; }
      var oldest :| oldest in orderedReceiveBuffer;
      var left := orderedReceiveBuffer.Keys - {oldest};
      while left != {}
        invariant left <= orderedReceiveBuffer.Keys && oldest in orderedReceiveBuffer
        invariant forall k :: k in orderedReceiveBuffer.Keys - left ==>
                    orderedReceiveBuffer[oldest].insertedAt <= orderedReceiveBuffer[k].insertedAt
        decreases |left|
      {
        var k :| k in left;
        left := left - {k};
        if orderedReceiveBuffer[k].insertedAt < orderedReceiveBuffer[oldest].insertedAt { oldest := k; }
      }
      assert IsOldest(orderedReceiveBuffer, oldest);
      orderedReceiveBuffer := orderedReceiveBuffer - {oldest};
      gapSequencesSkipped, messagesDropped := gapSequencesSkipped + 1, messagesDropped + 1;
      if oldest == receiveSequence {
        receiveSequence := WrappingAdd(receiveSequence, 1);
        DrainBuffered();
      }
    }

    method Receive() returns (message: Option<Bytes>)
      modifies this`deliveryQueue
      ensures message == if old(deliveryQueue) == [] then None else Some(old(deliveryQueue)[0])
      ensures deliveryQueue == if old(deliveryQueue) == [] then [] else old(deliveryQueue)[1..]
    {
      if deliveryQueue == [] { return None; }
      message := Some(deliveryQueue[0]);
      deliveryQueue := deliveryQueue[1..];
    }

    method Update(now: Instant)
      modifies this`receiveSequence, this`orderedReceiveBuffer, this`deliveryQueue,
               this`messagesReceived, this`gapSequencesSkipped
      ensures Updates(config, old(Receiver()), now, Receiver())
    {
      if config.deliveryMode.ReliableOrdered? && orderedReceiveBuffer != map[] {
        var hasTimedOut := exists k ::
          k in orderedReceiveBuffer && Elapsed(now, orderedReceiveBuffer[k].insertedAt) > config.orderedBufferTimeout;
        if hasTimedOut { FlushOrderedBuffer(); }
      }
    }

    /** Reduces the keys in whatever order the map yields them. */
    method FindEarliestBuffered() returns (earliest: Option<u16>, ghost order: seq<u16>)
      ensures earliest.None? <==> orderedReceiveBuffer == map[]
      ensures earliest.Some? ==>
                IsOrdering(order, orderedReceiveBuffer.Keys) && order != [] && earliest.value == Reduce(order)
    {
      order := [];
      if orderedReceiveBuffer == map[] { return None, []; }
      var a :| a in orderedReceiveBuffer;
      order := [a];
      var left := orderedReceiveBuffer.Keys - {a};
      while left != {}
        invariant left <= orderedReceiveBuffer.Keys
        invariant IsOrdering(order, orderedReceiveBuffer.Keys - left) && order != [] && a == Reduce(order)
        decreases |left|
      {
        var b :| b in left;
        assert (order + [b])[..|order|] == order;
        order := order + [b];
        left := left - {b};
        if GreaterThan(a, b) { a := b; }
      }
      return Some(a), order;
    }

    method FlushOrderedBuffer()
      modifies this`receiveSequence, this`orderedReceiveBuffer, this`deliveryQueue,
               this`messagesReceived, this`gapSequencesSkipped
      ensures Flushes(old(Receiver()), Receiver())
    {
      var firstSequence, order := FindEarliestBuffered();
      if firstSequence.Some? {
        var sequence := receiveSequence;
        hide WrappingAdd, WrappingSub, Drain, Reduce, IsOrdering;
        while sequence != firstSequence.value
          invariant gapSequencesSkipped + WrappingSub(firstSequence.value, sequence)
                 == old(gapSequencesSkipped) + WrappingSub(firstSequence.value, receiveSequence)
          invariant Receiver().(gapSequencesSkipped := old(gapSequencesSkipped)) == old(Receiver())
          decreases WrappingSub(firstSequence.value, sequence)
        {
          CloserByOne(firstSequence.value, sequence);
          gapSequencesSkipped := gapSequencesSkipped + 1;
          sequence := WrappingAdd(sequence, 1);
        }
        receiveSequence := firstSequence.value;
        assert Receiver() == SkippedTo(old(Receiver()), Reduce(order));
        DrainBuffered();
      }
    }
  }
}
