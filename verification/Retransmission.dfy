/** How often, and for how long, a channel tries to get a message through. */
module Retransmission {
  import opened Wrappers
  import opened Channels

  datatype Event =
    | Send(data: Bytes, reliable: bool)
    | Outgoing(now: Instant)
    | Retransmit(now: Instant, rto: nat, out: seq<(u16, Bytes)>)
    | Acknowledge(sequence: u16)
    | MarkFast(sequence: u16, now: Instant)

  ghost predicate Step(config: ChannelConfig, s: Sending, e: Event, s': Sending) {
    match e
    case Send(data, reliable) => s' == AfterSend(config, s, data, reliable).0
    case Outgoing(now) => s' == AfterOutgoing(s, now).0
    case Retransmit(now, rto, out) =>
      && (if config.deliveryMode.IsReliable()
          then Retransmits(config, s.pendingAck, s.pendingAck.Keys, now, rto, out) else out == [])
      && s' == AfterRetransmit(config, s, now, rto)
    case Acknowledge(k) => s' == s.(pendingAck := s.pendingAck - {k})
    case MarkFast(k, now) => s' == AfterMark(s, k, now)
  }

  ghost predicate IsRun(config: ChannelConfig, run: seq<Sending>, events: seq<Event>) {
    |run| == |events| + 1 && forall i :: 0 <= i < |events| ==> Step(config, run[i], events[i], run[i + 1])
  }

  /** No other message goes out under the number. */
  ghost predicate SoleUser(k: u16, run: seq<Sending>, events: seq<Event>)
    requires |run| == |events| + 1
  {
    forall i :: 0 <= i < |events| && events[i].Outgoing? && run[i].sendBuffer != [] ==>
      run[i].sendBuffer[0].sequence != k
  }

  ghost predicate Resends(e: Event, k: u16) { e.Retransmit? && k in KeysOf(e.out) }

  ghost function CountResent(events: seq<Event>, k: u16): nat {
    if events == [] then 0
    else CountResent(events[..|events| - 1], k) + if Resends(events[|events| - 1], k) then 1 else 0
  }

  /** The backoff factors of the first `n` waits, added up. */
  function BackoffSum(n: nat): nat { if n == 0 then 0 else BackoffSum(n - 1) + Backoff(n - 1) }

  function Factor(rto: nat, n: nat): nat { rto * n }

  lemma FactorGrows(least: nat, rto: nat, n: nat, m: nat)
    ensures Factor(least, n + m) == Factor(least, n) + Factor(least, m)
    ensures least <= rto ==> Factor(least, m) <= Factor(rto, m)
    ensures least > 0 && m > 0 ==> Factor(least, m) > 0
  {
    if least <= rto {
      var d := rto - least;
      assert rto * m == least * m + d * m;
    }
  }

  // ---------- how often ----------

  /** While it is pending the message has been resent `n` times; once it is not,
      no more often than allowed. */
  ghost predicate Counted(config: ChannelConfig, s: Sending, k: u16, n: nat) {
    n <= config.maxReliableRetries && (k in s.pendingAck ==> s.pendingAck[k].retryCount == n)
  }

  lemma StepCounts(config: ChannelConfig, s: Sending, e: Event, s': Sending, k: u16, n: nat)
    requires Step(config, s, e, s') && Counted(config, s, k, n)
    requires e.Outgoing? && s.sendBuffer != [] ==> s.sendBuffer[0].sequence != k
    ensures Counted(config, s', k, n + if Resends(e, k) then 1 else 0)
    ensures k in s.pendingAck && k !in s'.pendingAck ==>
      e == Acknowledge(k) || (e.Retransmit? && n == config.maxReliableRetries)
  {
    if Resends(e, k) { var i :| 0 <= i < |e.out| && e.out[i].0 == k; }
    hide Due;
  }

  lemma {:induction false} StaysCounted(config: ChannelConfig, run: seq<Sending>, events: seq<Event>, k: u16, i: nat)
    requires IsRun(config, run, events) && SoleUser(k, run, events) && i <= |events|
    requires k in run[0].pendingAck ==> run[0].pendingAck[k].retryCount == 0
    ensures Counted(config, run[i], k, CountResent(events[..i], k))
    decreases i
  {
    if i > 0 {
      hide Step, Counted, Resends;
      StaysCounted(config, run, events, k, i - 1);
      assert events[..i][..i - 1] == events[..i - 1];
      StepCounts(config, run[i - 1], events[i - 1], run[i], k, CountResent(events[..i - 1], k));
    }
  }

  /** Over any run, with fast retransmits or without, a message is resent no more
      often than configured. */
  lemma RetriesAreBounded(config: ChannelConfig, run: seq<Sending>, events: seq<Event>, k: u16)
    requires IsRun(config, run, events) && SoleUser(k, run, events)
    requires k in run[0].pendingAck ==> run[0].pendingAck[k].retryCount == 0
    ensures CountResent(events, k) <= config.maxReliableRetries
  {
    StaysCounted(config, run, events, k, |events|);
    assert events[..|events|] == events;
  }

  /** Unless it is acknowledged, it is given up only with every retry used. */
  lemma GivenUpWithRetriesUsed(config: ChannelConfig, run: seq<Sending>, events: seq<Event>, k: u16, i: nat)
    requires IsRun(config, run, events) && SoleUser(k, run, events) && i < |events|
    requires k in run[0].pendingAck ==> run[0].pendingAck[k].retryCount == 0
    requires k in run[i].pendingAck && k !in run[i + 1].pendingAck
    ensures events[i] == Acknowledge(k)
         || (events[i].Retransmit? && CountResent(events[..i], k) == config.maxReliableRetries)
  {
    StaysCounted(config, run, events, k, i);
    hide Step, Counted;
    StepCounts(config, run[i], events[i], run[i + 1], k, CountResent(events[..i], k));
  }

  // ---------- how long ----------

  /** A pending message was last sent no sooner than the backoff allows. */
  ghost predicate Patient(s: Sending, k: u16, start: int, least: nat) {
    k in s.pendingAck ==>
      var m := s.pendingAck[k];
      m.sendTime.Some? && m.sendTime.value >= start + Factor(least, BackoffSum(m.retryCount))
  }

  lemma DueIsLate(m: ChannelMessage, now: Instant, rto: nat, start: int, least: nat)
    requires 0 < least <= rto && Due(m, now, rto) && m.sendTime.value >= start + Factor(least, BackoffSum(m.retryCount))
    ensures now >= start + Factor(least, BackoffSum(m.retryCount + 1))
  {
    var n, b := m.retryCount, Backoff(m.retryCount);
    FactorGrows(least, rto, BackoffSum(n), b);
    assert rto * b == Factor(rto, b);
    hide Factor;
    assert BackoffSum(n + 1) == BackoffSum(n) + b;
  }

  /** No timeout is shorter than `least`, and the message is not hurried. */
  ghost predicate Unhurried(k: u16, least: nat, e: Event) {
    (e.Retransmit? ==> e.rto >= least) && (e.MarkFast? ==> e.sequence != k)
  }

  lemma StepIsPatient(config: ChannelConfig, s: Sending, e: Event, s': Sending, k: u16, start: int, least: nat)
    requires Step(config, s, e, s') && Patient(s, k, start, least) && 0 < least && Unhurried(k, least, e)
    requires e.Outgoing? && s.sendBuffer != [] ==> s.sendBuffer[0].sequence != k
    ensures Patient(s', k, start, least)
    ensures k in s.pendingAck && k !in s'.pendingAck ==>
      || e == Acknowledge(k)
      || (e.Retransmit? && e.now >= start + Factor(least, BackoffSum(s.pendingAck[k].retryCount + 1)))
  {
    if e.Retransmit? && k in s.pendingAck && Due(s.pendingAck[k], e.now, e.rto) {
      DueIsLate(s.pendingAck[k], e.now, e.rto, start, least);
    }
    hide Due, Factor, BackoffSum;
  }

  lemma {:induction false} StaysPatient(config: ChannelConfig, run: seq<Sending>, events: seq<Event>, k: u16,
                                        start: int, least: nat, from: nat, i: nat)
    requires IsRun(config, run, events) && SoleUser(k, run, events) && from <= i <= |events|
    requires Patient(run[from], k, start, least) && 0 < least
    requires forall j :: from <= j < |events| ==> Unhurried(k, least, events[j])
    ensures Patient(run[i], k, start, least)
    decreases i
  {
    if i > from {
      hide Step, Patient, Unhurried;
      StaysPatient(config, run, events, k, start, least, from, i - 1);
      StepIsPatient(config, run[i - 1], events[i - 1], run[i], k, start, least);
    }
  }

  /** A message last sent, or marked, so that it waits from `first` with `n`
      retries used, and left alone from then on, is not given up before all the
      backed-off waits that remain are over. */
  lemma GivenUpOnlyInTheEnd(config: ChannelConfig, run: seq<Sending>, events: seq<Event>, k: u16, least: nat,
                            from: nat, i: nat)
    requires IsRun(config, run, events) && SoleUser(k, run, events) && from <= i < |events|
    requires k in run[0].pendingAck ==> run[0].pendingAck[k].retryCount == 0
    requires k in run[from].pendingAck && run[from].pendingAck[k].sendTime.Some?
    requires 0 < least && forall j :: from <= j < |events| ==> Unhurried(k, least, events[j])
    requires k in run[i].pendingAck && k !in run[i + 1].pendingAck && events[i] != Acknowledge(k)
    ensures var m := run[from].pendingAck[k];
      && events[i].Retransmit? && CountResent(events[..i], k) == config.maxReliableRetries
      && events[i].now + Factor(least, BackoffSum(m.retryCount))
         >= m.sendTime.value + Factor(least, BackoffSum(config.maxReliableRetries + 1))
  {
    var m := run[from].pendingAck[k];
    var start := m.sendTime.value - Factor(least, BackoffSum(m.retryCount));
    GivenUpWithRetriesUsed(config, run, events, k, i);
    StaysCounted(config, run, events, k, i);
    assert run[i].pendingAck[k].retryCount == config.maxReliableRetries;
    hide Factor, BackoffSum, Step, Unhurried, Counted;
    StaysPatient(config, run, events, k, start, least, from, i);
    StepIsPatient(config, run[i], events[i], run[i + 1], k, start, least);
  }

  /** The waits double up to a cap of 32: six of them add up to 63 timeouts, and
      each further one to 32 more. */
  lemma {:induction false} BackoffSumIs(n: nat)
    ensures BackoffSum(6) == 63
    ensures n >= 6 ==> BackoffSum(n) == 63 + 32 * (n - 6)
  {
    assert BackoffSum(1) == 1 && BackoffSum(2) == 3 && BackoffSum(3) == 7;
    assert BackoffSum(4) == 15 && BackoffSum(5) == 31 && BackoffSum(6) == 63;
    if n > 6 { BackoffSumIs(n - 1); }
  }
}
