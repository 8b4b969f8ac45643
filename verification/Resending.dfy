/** That a reliable message is sent again, when, and with what: over runs of a
    channel's sending half, told from the calls. */
module Resending {
  import opened Wrappers
  import opened Channels
  import opened Retransmission

  function TwoTo(n: nat): nat { if n == 0 then 1 else 2 * TwoTo(n - 1) }

  /** How long after its last sending a message waits that has been resent `n` times. */
  function Wait(rto: nat, n: nat): nat { rto * TwoTo(if n < 5 then n else 5) }

  lemma BackoffDoubles(n: nat)
    ensures Backoff(n) == TwoTo(if n < 5 then n else 5)
  {
    assert TwoTo(1) == 2 && TwoTo(2) == 4 && TwoTo(3) == 8 && TwoTo(4) == 16 && TwoTo(5) == 32;
  }

  predicate IsDue(last: Instant, n: nat, now: Instant, rto: nat) {
    (if last <= now then now - last else 0) >= Wait(rto, n)
  }

  lemma DueMeans(m: ChannelMessage, now: Instant, rto: nat)
    requires m.sendTime.Some?
    ensures Due(m, now, rto) <==> IsDue(m.sendTime.value, m.retryCount, now, rto)
  {
    BackoffDoubles(m.retryCount);
  }

  // ---------- told from the calls ----------

  /** The i-th call sends a reliable message out under `k`. */
  ghost predicate Emits(run: seq<Sending>, events: seq<Event>, i: nat, k: u16)
    requires |run| == |events| + 1
  {
    && i < |events| && events[i].Outgoing? && run[i].sendBuffer != []
    && run[i].sendBuffer[0].sequence == k && run[i].sendBuffer[0].reliable
  }

  /** From call `i` up to call `j` the message under `k` is neither acknowledged nor
      replaced by another. */
  ghost predicate Undisturbed(run: seq<Sending>, events: seq<Event>, i: nat, j: nat, k: u16)
    requires |run| == |events| + 1 && j <= |events|
  {
    forall m :: i <= m < j ==> events[m] != Acknowledge(k) && !Emits(run, events, m, k)
  }

  /** How often it is resent from call `i` up to call `j`. */
  ghost function Resendings(events: seq<Event>, i: nat, j: nat, k: u16): nat
    requires j <= |events|
  {
    if j <= i then 0 else Resendings(events, i, j - 1, k) + if Resends(events[j - 1], k) then 1 else 0
  }

  /** When it was last sent, or, if it was marked since, a minute before the mark. */
  ghost function LastSent(events: seq<Event>, i: nat, j: nat, k: u16, first: Instant): Instant
    requires j <= |events|
  {
    if j <= i then first
    else
      var e := events[j - 1];
      if Resends(e, k) then e.now
      else if e.MarkFast? && e.sequence == k then e.now - 60_000
      else LastSent(events, i, j - 1, k, first)
  }

  ghost predicate Chased(s: Sending, k: u16, data: Bytes, last: Instant, n: nat) {
    && k in s.pendingAck && s.pendingAck[k].data == data
    && s.pendingAck[k].sendTime == Some(last) && s.pendingAck[k].retryCount == n
  }

  /** Nothing has been resent of a message still waiting to go out. */
  ghost predicate FreshQueue(s: Sending) {
    forall i :: 0 <= i < |s.sendBuffer| ==> s.sendBuffer[i].retryCount == 0
  }

  lemma StepKeepsFresh(config: ChannelConfig, s: Sending, e: Event, s': Sending)
    requires Step(config, s, e, s') && FreshQueue(s)
    ensures FreshQueue(s')
  {
    hide Due, Retransmits;
  }

  lemma {:induction false} RunKeepsFresh(config: ChannelConfig, run: seq<Sending>, events: seq<Event>, i: nat)
    requires IsRun(config, run, events) && run[0] == NEW_SENDING && i <= |events|
    ensures FreshQueue(run[i])
  {
    hide Step;
    if i > 0 {
      RunKeepsFresh(config, run, events, i - 1);
      StepKeepsFresh(config, run[i - 1], events[i - 1], run[i]);
    }
  }

  // ---------- one call ----------

  /** The message under its own number, big-endian. */
  function Framed(k: u16, data: Bytes): Bytes { [k / 256, k % 256] + data }

  lemma RetransmitEffect(config: ChannelConfig, s: Sending, now: Instant, rto: nat, out: seq<(u16, Bytes)>, s': Sending,
                         k: u16, data: Bytes, last: Instant, n: nat)
    requires config.deliveryMode.IsReliable() && Step(config, s, Retransmit(now, rto, out), s')
    requires Chased(s, k, data, last, n)
    ensures var due, left := IsDue(last, n, now, rto), n < config.maxReliableRetries;
      && (k in KeysOf(out) <==> due && left)
      && (due && left ==> Chased(s', k, data, now, n + 1) && (k, Framed(k, data)) in out)
      && (!due ==> Chased(s', k, data, last, n))
      && (due && !left ==> k !in s'.pendingAck)
  {
    DueMeans(s.pendingAck[k], now, rto);
    hide Due, IsDue;
    if k in KeysOf(out) {
      var i :| 0 <= i < |out| && out[i].0 == k;
      assert out[i] == (k, Framed(k, data));
    }
  }

  lemma OtherEffect(config: ChannelConfig, s: Sending, e: Event, s': Sending, k: u16, data: Bytes, last: Instant,
                    n: nat)
    requires Step(config, s, e, s') && !e.Retransmit? && e != Acknowledge(k) && Chased(s, k, data, last, n)
    requires e.Outgoing? && s.sendBuffer != [] ==> s.sendBuffer[0].sequence != k || !s.sendBuffer[0].reliable
    ensures Chased(s', k, data, if e.MarkFast? && e.sequence == k then e.now - 60_000 else last, n)
  {
  }

  // ---------- whole runs ----------

  lemma EmissionIsChased(config: ChannelConfig, run: seq<Sending>, events: seq<Event>, i: nat, k: u16)
    requires IsRun(config, run, events) && run[0] == NEW_SENDING && Emits(run, events, i, k)
    ensures Chased(run[i + 1], k, run[i].sendBuffer[0].data, events[i].now, 0)
  {
    RunKeepsFresh(config, run, events, i);
    assert Step(config, run[i], events[i], run[i + 1]);
  }

  lemma {:induction false} StaysChased(config: ChannelConfig, run: seq<Sending>, events: seq<Event>, i: nat, j: nat,
                                       k: u16, data: Bytes, first: Instant)
    requires config.deliveryMode.IsReliable() && IsRun(config, run, events) && i <= j <= |events|
    requires Chased(run[i], k, data, first, 0) && Undisturbed(run, events, i, j, k)
    requires Resendings(events, i, j, k) < config.maxReliableRetries || k in run[j].pendingAck
    ensures Chased(run[j], k, data, LastSent(events, i, j, k, first), Resendings(events, i, j, k))
    decreases j
  {
    if i < j {
      hide Step, Chased, IsDue, Resends;
      var e, s, s' := events[j - 1], run[j - 1], run[j];
      assert Step(config, s, e, s');
      PendingBefore(config, run, events, i, j, k);
      StaysChased(config, run, events, i, j - 1, k, data, first);
      var last, n := LastSent(events, i, j - 1, k, first), Resendings(events, i, j - 1, k);
      match e
      case Retransmit(now, rto, out) =>
        RetransmitEffect(config, s, now, rto, out, s', k, data, last, n);
        ResendsMeans(e, k);
      case _ =>
        OtherEffect(config, s, e, s', k, data, last, n);
        ResendsMeans(e, k);
    }
  }

  lemma ResendsMeans(e: Event, k: u16)
    ensures Resends(e, k) <==> e.Retransmit? && k in KeysOf(e.out)
  {
  }

  /** What is pending after a call that does not send it was pending before. */
  lemma PendingBefore(config: ChannelConfig, run: seq<Sending>, events: seq<Event>, i: nat, j: nat, k: u16)
    requires IsRun(config, run, events) && i < j <= |events| && Undisturbed(run, events, i, j, k)
    ensures Undisturbed(run, events, i, j - 1, k)
    ensures k in run[j].pendingAck ==> k in run[j - 1].pendingAck
  {
    assert Step(config, run[j - 1], events[j - 1], run[j]);
    assert !Emits(run, events, j - 1, k);
    hide Due, Retransmits;
  }

  /** On a reliable channel a message sent at some call and not disturbed since is
      resent by a later pass, under its own number and with its own data, if and only
      if the doubled wait since it was last sent is over and it has retries left. As
      long as it has, it stays pending. */
  lemma ResentIffDue(config: ChannelConfig, run: seq<Sending>, events: seq<Event>, i: nat, j: nat, k: u16)
    requires config.deliveryMode.IsReliable() && IsRun(config, run, events) && run[0] == NEW_SENDING
    requires Emits(run, events, i, k) && i < j < |events| && Undisturbed(run, events, i + 1, j, k)
    requires events[j].Retransmit?
    requires Resendings(events, i + 1, j, k) < config.maxReliableRetries
    ensures var last, n := LastSent(events, i + 1, j, k, events[i].now), Resendings(events, i + 1, j, k);
      && k in run[j].pendingAck && k in run[j + 1].pendingAck
      && ((k, Framed(k, run[i].sendBuffer[0].data)) in events[j].out <==> IsDue(last, n, events[j].now, events[j].rto))
      && (k in KeysOf(events[j].out) <==> IsDue(last, n, events[j].now, events[j].rto))
  {
    EmissionIsChased(config, run, events, i, k);
    var data, first := run[i].sendBuffer[0].data, events[i].now;
    hide Step, IsDue, Framed;
    StaysChased(config, run, events, i + 1, j, k, data, first);
    assert Step(config, run[j], Retransmit(events[j].now, events[j].rto, events[j].out), run[j + 1]);
    RetransmitEffect(config, run[j], events[j].now, events[j].rto, events[j].out, run[j + 1], k, data,
                     LastSent(events, i + 1, j, k, first), Resendings(events, i + 1, j, k));
    if (k, Framed(k, data)) in events[j].out {
      var m :| 0 <= m < |events[j].out| && events[j].out[m] == (k, Framed(k, data));
      assert events[j].out[m].0 == k;
    }
  }

  /** With all retries used it is given up by the first pass that finds it due, and
      not resent. */
  lemma GivenUpIffDue(config: ChannelConfig, run: seq<Sending>, events: seq<Event>, i: nat, j: nat, k: u16)
    requires config.deliveryMode.IsReliable() && IsRun(config, run, events) && run[0] == NEW_SENDING
    requires Emits(run, events, i, k) && i < j < |events| && Undisturbed(run, events, i + 1, j, k)
    requires events[j].Retransmit? && k in run[j].pendingAck
    requires Resendings(events, i + 1, j, k) >= config.maxReliableRetries
    ensures var last, n := LastSent(events, i + 1, j, k, events[i].now), Resendings(events, i + 1, j, k);
      && k !in KeysOf(events[j].out)
      && (k !in run[j + 1].pendingAck <==> IsDue(last, n, events[j].now, events[j].rto))
  {
    EmissionIsChased(config, run, events, i, k);
    var data, first := run[i].sendBuffer[0].data, events[i].now;
    hide Step, IsDue, Framed;
    StaysChased(config, run, events, i + 1, j, k, data, first);
    assert Step(config, run[j], Retransmit(events[j].now, events[j].rto, events[j].out), run[j + 1]);
    RetransmitEffect(config, run[j], events[j].now, events[j].rto, events[j].out, run[j + 1], k, data,
                     LastSent(events, i + 1, j, k, first), Resendings(events, i + 1, j, k));
  }

  // ---------- not after an acknowledgement ----------

  /** Once acknowledged a message is neither pending nor resent, until another goes
      out under its number. */
  lemma {:induction false} AcknowledgedIsLeftAlone(config: ChannelConfig, run: seq<Sending>, events: seq<Event>,
                                                   i: nat, j: nat, k: u16)
    requires IsRun(config, run, events) && i < j <= |events| && events[i] == Acknowledge(k)
    requires forall m :: i < m < j ==> !Emits(run, events, m, k)
    ensures k !in run[j].pendingAck
    ensures j < |events| && events[j].Retransmit? ==> k !in KeysOf(events[j].out)
    decreases j
  {
    assert Step(config, run[j - 1], events[j - 1], run[j]);
    if i + 1 < j {
      AcknowledgedIsLeftAlone(config, run, events, i, j - 1, k);
      assert !Emits(run, events, j - 1, k);
    }
    hide Due;
    if j < |events| { assert Step(config, run[j], events[j], run[j + 1]); }
  }

  // ---------- promises that do not hold ----------

  /** On a channel of an unreliable mode a message sent as reliable is never sent
      again, although it stays pending until it is acknowledged. */
  lemma {:induction false} NotResentOnUnreliable(config: ChannelConfig, run: seq<Sending>, events: seq<Event>,
                                                 i: nat, j: nat, k: u16)
    requires !config.deliveryMode.IsReliable() && IsRun(config, run, events) && Emits(run, events, i, k)
    requires i < j <= |events| && forall m :: i < m < j ==> events[m] != Acknowledge(k)
    ensures k in run[j].pendingAck
    ensures forall m :: 0 <= m < |events| && events[m].Retransmit? ==> events[m].out == []
    decreases j
  {
    assert Step(config, run[j - 1], events[j - 1], run[j]);
    forall m | 0 <= m < |events| && events[m].Retransmit?
      ensures events[m].out == []
    {
      assert Step(config, run[m], events[m], run[m + 1]);
    }
    hide Due;
    if i + 1 < j { NotResentOnUnreliable(config, run, events, i, j - 1, k); }
  }

  /** A message marked for a fast retransmit is due at once if and only if its wait
      is not over a minute: with timeouts up to 1875 ms always, and with longer ones
      not once it has been resent five times. */
  lemma MarkedIsDueIff(n: nat, rto: nat, marked: Instant, now: Instant)
    requires marked <= now
    ensures IsDue(marked - 60_000, n, now, rto) <==> now - marked + 60_000 >= Wait(rto, n)
    ensures rto <= 1875 ==> Wait(rto, n) <= 60_000
    ensures rto > 1875 && n >= 5 ==> Wait(rto, n) > 60_000
  {
    assert TwoTo(1) == 2 && TwoTo(2) == 4 && TwoTo(3) == 8 && TwoTo(4) == 16 && TwoTo(5) == 32;
  }
}
