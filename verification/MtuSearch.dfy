/** Path MTU discovery: a binary search over probe sizes. */
module MtuSearch {
  import opened Wrappers
  import opened Bits

  const DEFAULT_PROBE_TIMEOUT_MILLIS := 500
  const DEFAULT_MAX_PROBE_ATTEMPTS := 10
  const MTU_CONVERGENCE_THRESHOLD := 1

  datatype Search = Search(
    minMtu: u64,
    maxMtu: u64,
    currentProbe: u64,
    discoveredMtu: u64,
    complete: bool,
    lastProbeTime: Option<Instant>,
    attempts: nat)

  function Started(minMtu: u64, maxMtu: u64): Search {
    Search(minMtu, maxMtu, (minMtu + maxMtu) / 2, minMtu, false, None, 0)
  }

  /** `max_mtu - min_mtu` on 64-bit words. */
  function Width(s: Search): u64 {
    if s.maxMtu >= s.minMtu then s.maxMtu - s.minMtu else s.maxMtu - s.minMtu + 0x1_0000_0000_0000_0000
  }

  predicate Waiting(s: Search, timeout: nat, now: Instant) {
    s.lastProbeTime.Some? && Elapsed(now, s.lastProbeTime.value) < timeout
  }

  /** The clock is read at `now` to see whether the last probe still waits, and
      again at `sent` to stamp the next one. */
  function Probed(s: Search, timeout: nat, now: Instant, sent: Instant): (Search, Option<u64>) {
    if s.complete || s.attempts >= DEFAULT_MAX_PROBE_ATTEMPTS || Width(s) <= MTU_CONVERGENCE_THRESHOLD then
      (s.(complete := true), None)
    else if Waiting(s, timeout, now) then (s, None)
    else
      var probe := (s.minMtu + s.maxMtu) / 2;
      (s.(currentProbe := probe, lastProbeTime := Some(sent), attempts := s.attempts + 1), Some(probe))
  }

  function Acked(s: Search, size: u64): Search {
    if size >= s.minMtu then s.(discoveredMtu := size, minMtu := size) else s
  }

  function TimedOut(s: Search): Search { s.(maxMtu := s.currentProbe) }

  function Checked(s: Search, timeout: nat, now: Instant): Search {
    if !s.complete && s.lastProbeTime.Some? && !Waiting(s, timeout, now) then TimedOut(s) else s
  }

  class MtuDiscovery {
    var minMtu: u64
    var maxMtu: u64
    var currentProbe: u64
    var discoveredMtu: u64
    var complete: bool
    const probeTimeout: nat
    var lastProbeTime: Option<Instant>
    var attempts: nat

    function State(): Search
      reads this
    {
      Search(minMtu, maxMtu, currentProbe, discoveredMtu, complete, lastProbeTime, attempts)
    }

    constructor (minMtu: u64, maxMtu: u64)
      ensures State() == Started(minMtu, maxMtu) && probeTimeout == DEFAULT_PROBE_TIMEOUT_MILLIS
    {
      this.minMtu, this.maxMtu := minMtu, maxMtu;
      currentProbe, discoveredMtu := (minMtu + maxMtu) / 2, minMtu;
      complete, lastProbeTime, attempts := false, None, 0;
      probeTimeout := DEFAULT_PROBE_TIMEOUT_MILLIS;
    }

    method NextProbe(now: Instant, sent: Instant) returns (probe: Option<u64>)
      modifies this
      ensures (State(), probe) == Probed(old(State()), probeTimeout, now, sent)
    {
      if complete || attempts >= DEFAULT_MAX_PROBE_ATTEMPTS {
        complete := true;
        return None;
      }
      if Width(State()) <= MTU_CONVERGENCE_THRESHOLD {
        complete := true;
        return None;
      }
      if lastProbeTime.Some? && Elapsed(now, lastProbeTime.value) < probeTimeout { return None; }
      currentProbe := (minMtu + maxMtu) / 2;
      lastProbeTime := Some(sent);
      attempts := attempts + 1;
      return Some(currentProbe);
    }

    method OnProbeSuccess(size: u64)
      modifies this
      ensures State() == Acked(old(State()), size)
    {
      if size >= minMtu {
        discoveredMtu := size;
        minMtu := size;
      }
    }

    method OnProbeTimeout()
      modifies this
      ensures State() == TimedOut(old(State()))
    {
      maxMtu := currentProbe;
    }

    method CheckProbeTimeout(now: Instant)
      modifies this
      ensures State() == Checked(old(State()), probeTimeout, now)
    {
      if complete { return; }
      if lastProbeTime.Some? && Elapsed(now, lastProbeTime.value) >= probeTimeout { OnProbeTimeout(); }
    }
  }

  // ---------- a search with every probe answered ----------

  /** A probe and its answer: when it was asked for, when it went out, and when
      either its acknowledgement came or it was given up. */
  datatype Round = Round(askedAt: Instant, sentAt: Instant, answeredAt: Instant)

  /** Probes up to `limit` bytes get through, larger ones are given up after the
      timeout. */
  ghost predicate Answers(limit: nat, timeout: nat, s: Search, r: Round, s': Search) {
    var (p, probe) := Probed(s, timeout, r.askedAt, r.sentAt);
    && probe.Some?
    && if probe.value <= limit then s' == Acked(p, probe.value)
       else Elapsed(r.answeredAt, r.sentAt) >= timeout && s' == Checked(p, timeout, r.answeredAt)
  }

  ghost predicate IsSearch(limit: nat, timeout: nat, low: u64, high: u64, run: seq<Search>, rounds: seq<Round>) {
    && |run| == |rounds| + 1 && run[0] == Started(low, high)
    && forall i :: 0 <= i < |rounds| ==> Answers(limit, timeout, run[i], rounds[i], run[i + 1])
  }

  /** What a search over `low..high` should find. */
  function Target(limit: nat, high: nat): nat
    requires high > 0
  {
    if limit < high then limit else high - 1
  }

  function CeilShift(n: nat, k: nat): nat { if k == 0 then n else (CeilShift(n, k - 1) + 1) / 2 }

  /** Halving k times, rounding up each time, is dividing by 2^k and rounding up. */
  lemma {:induction false} CeilShiftIsCeilDiv(n: nat, k: nat)
    ensures CeilShift(n, k) == (n + Pow2(k) - 1) / Pow2(k)
  {
    if k > 0 {
      CeilShiftIsCeilDiv(n, k - 1);
      HalveCeil(n, Pow2(k - 1));
    }
  }

  lemma HalveCeil(n: nat, p: nat)
    requires p > 0
    ensures ((n + p - 1) / p + 1) / 2 == (n + 2 * p - 1) / (2 * p)
  {
    var q, r := (n + p - 1) / p, (n + p - 1) % p;
    assert n + p - 1 == p * q + r;
    var h, b := (q + 1) / 2, (q + 1) % 2;
    assert q + 1 == 2 * h + b;
    assert p * q + p == p * (2 * h + b) by { assert p * q + p == p * (q + 1); }
    assert p * (2 * h + b) == 2 * p * h + p * b;
    assert n + 2 * p - 1 == 2 * p * h + (p * b + r);
    assert p * b + r < 2 * p by { if b == 1 { assert p * b == p; } }
    DivUnique(n + 2 * p - 1, 2 * p, h, p * b + r);
  }

  ghost predicate Narrowed(limit: nat, low: nat, high: nat, s: Search, k: nat)
    requires low < high
  {
    && low <= s.minMtu <= Target(limit, high) < s.maxMtu <= high
    && s.discoveredMtu == s.minMtu && s.attempts == k && !s.complete
    && s.maxMtu - s.minMtu <= CeilShift(high - low, k)
  }

  lemma RoundNarrows(limit: nat, timeout: nat, low: nat, high: nat, s: Search, r: Round, s': Search, k: nat)
    requires low <= limit && low < high && Narrowed(limit, low, high, s, k) && Answers(limit, timeout, s, r, s')
    ensures Narrowed(limit, low, high, s', k + 1) && k < DEFAULT_MAX_PROBE_ATTEMPTS
  {
  }

  /** Each answered probe halves the interval around the largest size that gets
      through, and what has been discovered never exceeds it. */
  lemma {:induction false} SearchNarrows(limit: nat, timeout: nat, low: u64, high: u64, run: seq<Search>,
                                         rounds: seq<Round>)
    requires low <= limit && low < high && IsSearch(limit, timeout, low, high, run, rounds)
    ensures Narrowed(limit, low, high, run[|rounds|], |rounds|)
    decreases |rounds|
  {
    if rounds != [] {
      var k := |rounds| - 1;
      hide Answers, Narrowed;
      SearchNarrows(limit, timeout, low, high, run[..k + 1], rounds[..k]);
      assert run[..k + 1][k] == run[k];
      RoundNarrows(limit, timeout, low, high, run[k], rounds[k], run[k + 1], k);
    }
  }

  lemma {:induction false} TenRoundsSuffice(n: nat, k: nat)
    requires n <= 1024 && k <= 10
    ensures CeilShift(n, k) <= if k == 0 then 1024 else if k == 1 then 512 else if k == 2 then 256
      else if k == 3 then 128 else if k == 4 then 64 else if k == 5 then 32 else if k == 6 then 16
      else if k == 7 then 8 else if k == 8 then 4 else if k == 9 then 2 else 1
  {
    if k > 0 { TenRoundsSuffice(n, k - 1); }
  }

  lemma HalvedToOne(n: nat, k: nat)
    requires n <= Pow2(k)
    ensures CeilShift(n, k) <= 1
  {
    CeilShiftIsCeilDiv(n, k);
    DivUnique(n + Pow2(k) - 1, Pow2(k), if n == 0 then 0 else 1, if n == 0 then Pow2(k) - 1 else n - 1);
  }

  /** A range of at most 2^k takes no more than k probes. */
  lemma RoundsHalveRange(limit: nat, timeout: nat, low: u64, high: u64, run: seq<Search>, rounds: seq<Round>, k: nat)
    requires low <= limit && low < high && high - low <= Pow2(k) && IsSearch(limit, timeout, low, high, run, rounds)
    ensures |rounds| <= k
  {
    if rounds != [] {
      var j := |rounds| - 1;
      SearchNarrows(limit, timeout, low, high, run[..j + 1], rounds[..j]);
      assert run[..j + 1][j] == run[j] && Answers(limit, timeout, run[j], rounds[j], run[j + 1]);
      StillWide(limit, timeout, low, high, run[j], rounds[j], run[j + 1], j);
      if j >= k { Pow2Mono(k, j); }
    }
  }

  lemma StillWide(limit: nat, timeout: nat, low: nat, high: nat, s: Search, r: Round, s': Search, k: nat)
    requires low <= limit && low < high && Narrowed(limit, low, high, s, k) && Answers(limit, timeout, s, r, s')
    ensures high - low > Pow2(k)
  {
    if high - low <= Pow2(k) { HalvedToOne(high - low, k); }
  }

  /** When the search ends the answer is exact, provided the ten attempts can
      cover the range it began with. */
  lemma SearchIsExact(limit: nat, timeout: nat, low: u64, high: u64, run: seq<Search>, rounds: seq<Round>,
                      now: Instant)
    requires low <= limit && low < high && high - low <= 1024 && IsSearch(limit, timeout, low, high, run, rounds)
    requires Probed(run[|rounds|], timeout, now, now).0.complete
    ensures run[|rounds|].discoveredMtu == Target(limit, high)
  {
    SearchNarrows(limit, timeout, low, high, run, rounds);
    if |rounds| >= 10 { RoundsAreFew(limit, timeout, low, high, run, rounds); TenRoundsSuffice(high - low, 10); }
  }

  /** No search takes more than ten probes. */
  lemma RoundsAreFew(limit: nat, timeout: nat, low: u64, high: u64, run: seq<Search>, rounds: seq<Round>)
    requires low <= limit && low < high && IsSearch(limit, timeout, low, high, run, rounds)
    ensures |rounds| <= DEFAULT_MAX_PROBE_ATTEMPTS
  {
    if rounds != [] {
      var k := |rounds| - 1;
      SearchNarrows(limit, timeout, low, high, run[..k + 1], rounds[..k]);
      assert run[..k + 1][k] == run[k] && Answers(limit, timeout, run[k], rounds[k], run[k + 1]);
    }
  }

  // ---------- how the connection drives it ----------

  /** One tick of the connection: a probe if one is due, and in the end the timeout
      check, which reads the clock again. */
  datatype Event = Tick(now: Instant, sent: Instant, later: Instant) | Ack(size: u64)

  function ProbedIn(s: Search, timeout: nat, e: Event): (Search, Option<u64>)
    requires e.Tick?
  {
    Probed(s, timeout, e.now, e.sent)
  }

  function Ticked(s: Search, timeout: nat, e: Event): Search
    requires e.Tick?
  {
    Checked(ProbedIn(s, timeout, e).0, timeout, e.later)
  }

  /** The check finds the probe past its deadline, although in the same tick the
      probing has just found it waiting, or has just sent it. */
  predicate Straddles(s: Search, timeout: nat, e: Event) {
    e.Tick? && var p := ProbedIn(s, timeout, e).0;
      !p.complete && p.lastProbeTime.Some? && Elapsed(e.later, p.lastProbeTime.value) >= timeout
  }

  /** So the deadline falls between the two readings, or the tick takes the whole
      timeout. */
  lemma StraddlesMeans(s: Search, timeout: nat, e: Event)
    requires e.Tick? && e.now <= e.sent <= e.later && !ProbedIn(s, timeout, e).0.complete
    ensures Straddles(s, timeout, e) <==>
      if ProbedIn(s, timeout, e).1.Some? then e.later >= e.sent + timeout
      else s.lastProbeTime.Some? && Elapsed(e.now, s.lastProbeTime.value) < timeout
           && Elapsed(e.later, s.lastProbeTime.value) >= timeout
  {
  }

  /** A tick lowers the upper end to the current probe if it straddles the
      deadline, and otherwise leaves it. */
  lemma TickedIs(s: Search, timeout: nat, e: Event)
    requires e.Tick?
    ensures var p := ProbedIn(s, timeout, e).0;
      Ticked(s, timeout, e) == if Straddles(s, timeout, e) then p.(maxMtu := p.currentProbe) else p
  {
  }

  function Handled(s: Search, timeout: nat, e: Event): Search {
    match e
    case Tick(_, _, _) => Ticked(s, timeout, e)
    case Ack(size) => Acked(s, size)
  }

  function Driven(s: Search, timeout: nat, events: seq<Event>): Search {
    if events == [] then s
    else Handled(Driven(s, timeout, events[..|events| - 1]), timeout, events[|events| - 1])
  }

  /** The sizes sent as probes. */
  function ProbesOf(s: Search, timeout: nat, events: seq<Event>): set<u64> {
    if events == [] then {}
    else
      var before := ProbesOf(s, timeout, events[..|events| - 1]);
      var e := events[|events| - 1];
      if e.Ack? then before
      else
        var probe := ProbedIn(Driven(s, timeout, events[..|events| - 1]), timeout, e).1;
        if probe.Some? then before + {probe.value} else before
  }

  /** Every acknowledgement is for a probe that has gone out, and none is larger
      than what gets through. Probes and acknowledgements may be lost, late or
      repeated. */
  ghost predicate Answered(limit: nat, s: Search, timeout: nat, events: seq<Event>) {
    forall i :: 0 <= i < |events| && events[i].Ack? ==>
      events[i].size <= limit && events[i].size in ProbesOf(s, timeout, events[..i])
  }

  lemma AnsweredPrefix(limit: nat, s: Search, timeout: nat, events: seq<Event>, k: nat)
    requires Answered(limit, s, timeout, events) && k <= |events|
    ensures Answered(limit, s, timeout, events[..k])
  {
    assert forall i :: 0 <= i < k ==> events[..k][..i] == events[..i];
    hide ProbesOf;
  }

  // ---------- with the check on time or late ----------

  /** Whatever else happens, what has been discovered is the low end or a probe
      that got through. */
  lemma {:induction false} DiscoveredGetsThrough(limit: nat, s: Search, timeout: nat, events: seq<Event>)
    requires s.discoveredMtu <= limit && Answered(limit, s, timeout, events)
    ensures var t := Driven(s, timeout, events);
      && t.discoveredMtu <= limit
      && (t.discoveredMtu == s.discoveredMtu || t.discoveredMtu in ProbesOf(s, timeout, events))
  {
    if events != [] {
      AnsweredPrefix(limit, s, timeout, events, |events| - 1);
      DiscoveredGetsThrough(limit, s, timeout, events[..|events| - 1]);
    }
  }

  /** No tick straddles a deadline. */
  ghost predicate OnTime(s: Search, timeout: nat, events: seq<Event>) {
    forall i :: 0 <= i < |events| ==> !Straddles(Driven(s, timeout, events[..i]), timeout, events[i])
  }

  lemma OnTimePrefix(s: Search, timeout: nat, events: seq<Event>, k: nat)
    requires OnTime(s, timeout, events) && k <= |events|
    ensures OnTime(s, timeout, events[..k])
    ensures k < |events| ==> !Straddles(Driven(s, timeout, events[..k]), timeout, events[k])
  {
    assert forall i :: 0 <= i < k ==> events[..k][..i] == events[..i];
    hide Driven, Straddles;
  }

  /** While no tick straddles a deadline the upper end stays where it began,
      whatever is lost. */
  lemma {:induction false} TicksNeverShrink(low: u64, high: u64, timeout: nat, events: seq<Event>)
    requires OnTime(Started(low, high), timeout, events)
    ensures Driven(Started(low, high), timeout, events).maxMtu == high
  {
    if events != [] {
      OnTimePrefix(Started(low, high), timeout, events, |events| - 1);
      TicksNeverShrink(low, high, timeout, events[..|events| - 1]);
    }
  }

  ghost predicate Below(s: Search, probes: set<u64>, high: nat) {
    s.minMtu < high && s.currentProbe < high && forall p :: p in probes ==> p < high
  }

  lemma {:induction false} StaysBelow(limit: nat, low: u64, high: u64, timeout: nat, events: seq<Event>, k: nat)
    requires low < high && Answered(limit, Started(low, high), timeout, events) && k <= |events|
    requires forall i :: 0 <= i < k ==> Driven(Started(low, high), timeout, events[..i]).maxMtu == high
    ensures var s := Started(low, high);
      Below(Driven(s, timeout, events[..k]), ProbesOf(s, timeout, events[..k]), high)
    decreases k
  {
    var s := Started(low, high);
    if k > 0 {
      StaysBelow(limit, low, high, timeout, events, k - 1);
      assert events[..k][..k - 1] == events[..k - 1];
      var t, e, sent := Driven(s, timeout, events[..k - 1]), events[k - 1], ProbesOf(s, timeout, events[..k - 1]);
      assert e.Ack? ==> e.size in sent;
      assert Driven(s, timeout, events[..k]) == Handled(t, timeout, e);
    }
  }

  lemma StraddlingLowers(limit: nat, low: u64, high: u64, timeout: nat, events: seq<Event>, i: nat)
    requires low < high && Answered(limit, Started(low, high), timeout, events) && i < |events|
    requires forall k :: 0 <= k <= i ==> Driven(Started(low, high), timeout, events[..k]).maxMtu == high
    requires Straddles(Driven(Started(low, high), timeout, events[..i]), timeout, events[i])
    ensures Driven(Started(low, high), timeout, events[..i + 1]).maxMtu < high
  {
    StaysBelow(limit, low, high, timeout, events, i);
    var t := Driven(Started(low, high), timeout, events[..i]);
    assert events[..i + 1] == events[..i] + [events[i]];
    DrivenOn(Started(low, high), timeout, events[..i], events[i]);
    hide Driven, ProbesOf, Answered, Straddles;
    TickedIs(t, timeout, events[i]);
  }

  /** It stays throughout a run if and only if no tick of the run straddles. */
  lemma StaysIffOnTime(limit: nat, low: u64, high: u64, timeout: nat, events: seq<Event>)
    requires low < high && Answered(limit, Started(low, high), timeout, events)
    ensures OnTime(Started(low, high), timeout, events)
       <==> forall k :: 0 <= k <= |events| ==> Driven(Started(low, high), timeout, events[..k]).maxMtu == high
  {
    var s := Started(low, high);
    hide Driven, Straddles, Answered;
    if OnTime(s, timeout, events) {
      forall k | 0 <= k <= |events|
        ensures Driven(s, timeout, events[..k]).maxMtu == high
      {
        OnTimePrefix(s, timeout, events, k);
        TicksNeverShrink(low, high, timeout, events[..k]);
      }
    } else {
      var i :| 0 <= i < |events| && Straddles(Driven(s, timeout, events[..i]), timeout, events[i]);
      if forall k :: 0 <= k <= i ==> Driven(s, timeout, events[..k]).maxMtu == high {
        StraddlingLowers(limit, low, high, timeout, events, i);
      }
    }
  }

  /** What j acknowledged probes lead to while the upper end stays: each takes
      half the way that is left. */
  function Rung(low: nat, high: nat, j: nat): int
    requires low <= high
  {
    high - CeilShift(high - low, j)
  }

  lemma {:induction false} NextRung(low: nat, high: nat, j: nat)
    requires low < high
    ensures low <= Rung(low, high, j) < high
    ensures (Rung(low, high, j) + high) / 2 == Rung(low, high, j + 1)
    decreases j
  {
    if j > 0 { NextRung(low, high, j - 1); }
  }

  lemma {:induction false} RungsRise(low: nat, high: nat, i: nat, j: nat)
    requires low < high && i <= j
    ensures Rung(low, high, i) <= Rung(low, high, j)
    decreases j
  {
    if i < j {
      RungsRise(low, high, i, j - 1);
      NextRung(low, high, j - 1);
    }
  }

  ghost predicate OnRung(limit: nat, low: nat, high: nat, s: Search, j: nat)
    requires low <= high
  {
    && s.maxMtu == high && s.discoveredMtu == s.minMtu == Rung(low, high, j) <= limit
    && j <= s.attempts <= DEFAULT_MAX_PROBE_ATTEMPTS
  }

  ghost predicate AreRungs(low: nat, high: nat, probes: set<u64>, n: nat)
    requires low <= high
  {
    forall p :: p in probes ==> exists j: nat :: j <= n && p == Rung(low, high, j)
  }

  lemma EventKeepsRung(limit: nat, low: u64, high: u64, timeout: nat, events: seq<Event>, j: nat) returns (j': nat)
    requires low < high && events != []
    requires Answered(limit, Started(low, high), timeout, events) && OnTime(Started(low, high), timeout, events)
    requires var s, before := Started(low, high), events[..|events| - 1];
      && OnRung(limit, low, high, Driven(s, timeout, before), j)
      && AreRungs(low, high, ProbesOf(s, timeout, before), Driven(s, timeout, before).attempts)
    ensures var s := Started(low, high);
      && OnRung(limit, low, high, Driven(s, timeout, events), j')
      && AreRungs(low, high, ProbesOf(s, timeout, events), Driven(s, timeout, events).attempts)
  {
    var s, n := Started(low, high), |events| - 1;
    var t, e, sent := Driven(s, timeout, events[..n]), events[n], ProbesOf(s, timeout, events[..n]);
    j' := j;
    NextRung(low, high, j);
    assert !Straddles(t, timeout, e);
    if e.Tick? {
      hide Rung;
    } else {
      assert e.size in sent;
      if e.size >= t.minMtu {
        j' :| j' <= t.attempts && e.size == Rung(low, high, j');
      }
    }
  }

  /** On time, whatever is lost, late or repeated, what has been discovered is one of the
      rungs: the low end, or half, three quarters, ... of the way up. */
  lemma {:induction false} OnlyRungs(limit: nat, low: u64, high: u64, timeout: nat, events: seq<Event>) returns (j: nat)
    requires low <= limit && low < high && Answered(limit, Started(low, high), timeout, events)
    requires OnTime(Started(low, high), timeout, events)
    ensures var s := Started(low, high);
      && OnRung(limit, low, high, Driven(s, timeout, events), j)
      && AreRungs(low, high, ProbesOf(s, timeout, events), Driven(s, timeout, events).attempts)
  {
    if events == [] {
      j := 0;
    } else {
      var before := events[..|events| - 1];
      AnsweredPrefix(limit, Started(low, high), timeout, events, |before|);
      OnTimePrefix(Started(low, high), timeout, events, |before|);
      hide *;
      j := OnlyRungs(limit, low, high, timeout, before);
      j := EventKeepsRung(limit, low, high, timeout, events, j);
    }
  }

  /** A size that does get through is missed: with the limit below the first
      probe, nothing above the low end is ever discovered. */
  lemma MissesBelowTheMiddle(limit: nat, low: u64, high: u64, timeout: nat, events: seq<Event>)
    requires low <= limit < (low + high) / 2 && Answered(limit, Started(low, high), timeout, events)
    requires OnTime(Started(low, high), timeout, events)
    ensures var s := Driven(Started(low, high), timeout, events); s.discoveredMtu == low == s.minMtu
  {
    var j := OnlyRungs(limit, low, high, timeout, events);
    NextRung(low, high, 0);
    if j > 0 { RungsRise(low, high, 1, j); }
  }

  /** Three ticks, the second of which straddles the deadline of the first probe,
      and an acknowledgement: over 576..1200, with 800 bytes getting through, 732 is
      discovered. */
  lemma StraddlingDiscovers()
    ensures var s, events := Started(576, 1200), [Tick(0, 0, 1), Tick(499, 499, 500), Tick(516, 516, 517), Ack(732)];
      && Answered(800, s, 500, events) && !OnTime(s, 500, events) && Driven(s, 500, events).discoveredMtu == 732
  {
    var s, four := Started(576, 1200), [Tick(0, 0, 1), Tick(499, 499, 500), Tick(516, 516, 517), Ack(732)];
    var three, two, one := four[..3], four[..2], four[..1];
    assert three[..2] == two && two[..1] == one && one[..0] == [];
    assert Driven(s, 500, one) == Search(576, 1200, 888, 576, false, Some(0), 1);
    assert Driven(s, 500, two) == Search(576, 888, 888, 576, false, Some(0), 1);
    assert Driven(s, 500, three) == Search(576, 888, 732, 576, false, Some(516), 2);
    assert 732 in ProbesOf(s, 500, three);
    assert Straddles(Driven(s, 500, four[..1]), 500, four[1]);
  }

  // ---------- driven with nothing lost that gets through ----------

  predicate AreTicks(ticks: seq<Event>) { forall i :: 0 <= i < |ticks| ==> ticks[i].Tick? }

  /** The given ticks, with each probe that gets through acknowledged before the
      next one. */
  function Prompt(limit: nat, s: Search, timeout: nat, ticks: seq<Event>): seq<Event>
    requires AreTicks(ticks)
  {
    if ticks == [] then []
    else
      var before, e := Prompt(limit, s, timeout, ticks[..|ticks| - 1]), ticks[|ticks| - 1];
      var probe := ProbedIn(Driven(s, timeout, before), timeout, e).1;
      before + [e] + if probe.Some? && probe.value <= limit then [Ack(probe.value)] else []
  }

  /** The search climbs as long as the rungs get through. */
  ghost predicate Climbed(limit: nat, low: nat, high: nat, s: Search, j: nat)
    requires low <= high
  {
    && OnRung(limit, low, high, s, j) && (j == s.attempts || Rung(low, high, j + 1) > limit)
    && (s.complete ==> s.attempts == DEFAULT_MAX_PROBE_ATTEMPTS || s.maxMtu - s.minMtu <= 1)
  }

  function PromptStep(limit: nat, t: Search, timeout: nat, e: Event): Search
    requires e.Tick?
  {
    var probe := ProbedIn(t, timeout, e).1;
    if probe.Some? && probe.value <= limit then Acked(Ticked(t, timeout, e), probe.value) else Ticked(t, timeout, e)
  }

  lemma DrivenOn(s: Search, timeout: nat, events: seq<Event>, e: Event)
    ensures Driven(s, timeout, events + [e]) == Handled(Driven(s, timeout, events), timeout, e)
  {
    assert (events + [e])[..|events|] == events;
  }

  lemma PromptDrives(limit: nat, s: Search, timeout: nat, ticks: seq<Event>)
    requires AreTicks(ticks) && ticks != []
    ensures var before, e := Prompt(limit, s, timeout, ticks[..|ticks| - 1]), ticks[|ticks| - 1];
      Driven(s, timeout, Prompt(limit, s, timeout, ticks)) == PromptStep(limit, Driven(s, timeout, before), timeout, e)
  {
    var before, e := Prompt(limit, s, timeout, ticks[..|ticks| - 1]), ticks[|ticks| - 1];
    var probe := ProbedIn(Driven(s, timeout, before), timeout, e).1;
    hide ProbedIn, Ticked, Acked;
    DrivenOn(s, timeout, before, e);
    if probe.Some? && probe.value <= limit {
      DrivenOn(s, timeout, before + [e], Ack(probe.value));
    } else {
      assert before + [e] + [] == before + [e];
    }
  }

  lemma PromptOnTime(limit: nat, s: Search, timeout: nat, ticks: seq<Event>)
    requires AreTicks(ticks) && ticks != [] && OnTime(s, timeout, Prompt(limit, s, timeout, ticks))
    ensures var before, e := Prompt(limit, s, timeout, ticks[..|ticks| - 1]), ticks[|ticks| - 1];
      OnTime(s, timeout, before) && !Straddles(Driven(s, timeout, before), timeout, e)
  {
    var all, before := Prompt(limit, s, timeout, ticks), Prompt(limit, s, timeout, ticks[..|ticks| - 1]);
    assert all[..|before|] == before && all[|before|] == ticks[|ticks| - 1];
    OnTimePrefix(s, timeout, all, |before|);
  }

  lemma StepClimbs(limit: nat, low: nat, high: nat, t: Search, timeout: nat, e: Event, j: nat) returns (j': nat)
    requires low < high && e.Tick? && !Straddles(t, timeout, e) && Climbed(limit, low, high, t, j)
    ensures Climbed(limit, low, high, PromptStep(limit, t, timeout, e), j')
  {
    NextRung(low, high, j);
    TickedIs(t, timeout, e);
    var probe := ProbedIn(t, timeout, e).1;
    hide Rung;
    j' := if probe.Some? && probe.value <= limit then j + 1 else j;
  }

  lemma {:induction false} PromptClimbs(limit: nat, low: u64, high: u64, timeout: nat, ticks: seq<Event>)
    returns (j: nat)
    requires low <= limit && low < high && AreTicks(ticks)
    requires OnTime(Started(low, high), timeout, Prompt(limit, Started(low, high), timeout, ticks))
    ensures var s := Started(low, high);
      Climbed(limit, low, high, Driven(s, timeout, Prompt(limit, s, timeout, ticks)), j)
  {
    var s := Started(low, high);
    if ticks == [] {
      j := 0;
    } else {
      var front, e := ticks[..|ticks| - 1], ticks[|ticks| - 1];
      PromptOnTime(limit, s, timeout, ticks);
      j := PromptClimbs(limit, low, high, timeout, front);
      PromptDrives(limit, s, timeout, ticks);
      assert e.Tick?;
      hide *;
      j := StepClimbs(limit, low, high, Driven(s, timeout, Prompt(limit, s, timeout, front)), timeout, e, j);
    }
  }

  /** Driven so and on time, the completed search has found what it should exactly when that
      is one of the first ten rungs. */
  lemma PromptIsExactIff(limit: nat, low: u64, high: u64, timeout: nat, ticks: seq<Event>)
    requires low <= limit && low < high && AreTicks(ticks)
    requires OnTime(Started(low, high), timeout, Prompt(limit, Started(low, high), timeout, ticks))
    requires var s := Started(low, high); Driven(s, timeout, Prompt(limit, s, timeout, ticks)).complete
    ensures var s := Started(low, high);
      Driven(s, timeout, Prompt(limit, s, timeout, ticks)).discoveredMtu == Target(limit, high)
      <==> exists j: nat :: j <= DEFAULT_MAX_PROBE_ATTEMPTS && Rung(low, high, j) == Target(limit, high)
  {
    var k := PromptClimbs(limit, low, high, timeout, ticks);
    NextRung(low, high, k);
    forall j: nat | j <= DEFAULT_MAX_PROBE_ATTEMPTS && Rung(low, high, j) == Target(limit, high)
      ensures Rung(low, high, k) == Rung(low, high, j)
    {
      if j <= k { RungsRise(low, high, j, k); } else { RungsRise(low, high, k + 1, j); RungsRise(low, high, k, j); }
    }
  }

  /** Checked after its acknowledgement instead, a probe that got through is
      taken for one that did not once the timeout is past: the search closes on it
      at once. Only before that is it left alone. */
  lemma LateCheckClosesSearch(s: Search, timeout: nat, askedAt: Instant, sentAt: Instant, now: Instant)
    requires Probed(s, timeout, askedAt, sentAt).1.Some? && s.minMtu < s.maxMtu
    ensures
      var (p, probe) := Probed(s, timeout, askedAt, sentAt);
      var acked := Acked(p, probe.value);
      var checked := Checked(acked, timeout, now);
      && (checked == acked <==> Elapsed(now, sentAt) < timeout)
      && (checked != acked ==> checked.minMtu == checked.maxMtu == probe.value)
  {
  }
}
