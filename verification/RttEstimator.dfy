/** The Jacobson/Karels round-trip estimator (section 2 of RFC 6298), over reals. */
module RttEstimator {

  const RTT_ALPHA := 0.125
  const RTT_BETA := 0.25
  const MIN_RTO_MS := 50.0
  const MAX_RTO_MS := 2000.0
  const INITIAL_RTO_MILLIS := 100

  datatype Rtt = Rtt(srtt: real, rttvar: real, rto: int, hasSample: bool)

  const NEW_RTT := Rtt(0.0, 0.0, INITIAL_RTO_MILLIS, false)

  function Abs(x: real): real { if x < 0.0 then -x else x }

  function Clamp(x: real, low: real, high: real): real { if x < low then low else if x > high then high else x }

  function Sampled(r: Rtt, sample: real): Rtt {
    var rttvar := if r.hasSample then (1.0 - RTT_BETA) * r.rttvar + RTT_BETA * Abs(sample - r.srtt) else sample / 2.0;
    var srtt := if r.hasSample then (1.0 - RTT_ALPHA) * r.srtt + RTT_ALPHA * sample else sample;
    Rtt(srtt, rttvar, Clamp(srtt + 4.0 * rttvar, MIN_RTO_MS, MAX_RTO_MS).Floor, true)
  }

  function AfterSamples(samples: seq<real>): Rtt {
    if samples == [] then NEW_RTT
    else Sampled(AfterSamples(samples[..|samples| - 1]), samples[|samples| - 1])
  }

  ghost predicate Within(samples: seq<real>, low: real, high: real) {
    forall i :: 0 <= i < |samples| ==> low <= samples[i] <= high
  }

  /** The smoothed time stays between the least and the greatest sample, its
      variation below the greater of their spread and half the first, and the
      timeout within its limits. */
  lemma {:induction false} EstimateStaysInRange(samples: seq<real>, low: real, high: real)
    requires samples != [] && 0.0 <= low && Within(samples, low, high)
    ensures var r := AfterSamples(samples);
      && r.hasSample && low <= r.srtt <= high
      && 0.0 <= r.rttvar && (r.rttvar <= high - low || r.rttvar <= high / 2.0)
      && 50 <= r.rto <= 2000
  {
    var front, last := samples[..|samples| - 1], samples[|samples| - 1];
    assert low <= last <= high;
    if front != [] { EstimateStaysInRange(front, low, high); }
  }

  function Power(b: real, n: nat): real { if n == 0 then 1.0 else b * Power(b, n - 1) }

  /** Half the sample, less a quarter of the rest n times over. */
  function Decayed(s: real, n: nat): real { s / 2.0 * Power(0.75, n) }

  lemma DecayStep(s: real, n: nat)
    ensures Decayed(s, 0) == s / 2.0 && Decayed(s, n + 1) == 0.75 * Decayed(s, n)
  {
    var h, p := s / 2.0, Power(0.75, n);
    assert Power(0.75, n + 1) == 0.75 * p;
    hide Power;
    assert 0.75 * (h * p) == h * (0.75 * p);
  }

  lemma SteadyStep(r: Rtt, s: real)
    requires r.hasSample && r.srtt == s
    ensures Sampled(r, s).srtt == s && Sampled(r, s).rttvar == 0.75 * r.rttvar && Sampled(r, s).hasSample
  {
  }

  /** On a steady line the estimate is the sample from the start, and its
      variation dies away by a quarter each time. */
  lemma {:induction false} SteadyLine(samples: seq<real>, s: real)
    requires samples != [] && 0.0 <= s && forall i :: 0 <= i < |samples| ==> samples[i] == s
    ensures var r := AfterSamples(samples);
      r.srtt == s && r.rttvar == Decayed(s, |samples| - 1) && r.hasSample
  {
    hide Decayed;
    var front := samples[..|samples| - 1];
    assert samples[|samples| - 1] == s;
    if front == [] {
      DecayStep(s, 0);
    } else {
      SteadyLine(front, s);
      SteadyStep(AfterSamples(front), s);
      DecayStep(s, |front| - 1);
    }
  }

  function Twice(s: real, n: nat): real { 2.0 * (s * Power(0.75, n)) }

  /** Its timeout is the sample and twice the sample dying away so, in whole
      milliseconds from 50 to 2000. */
  lemma SteadyTimeout(samples: seq<real>, s: real)
    requires samples != [] && 0.0 <= s && forall i :: 0 <= i < |samples| ==> samples[i] == s
    ensures var x := s + Twice(s, |samples| - 1);
      AfterSamples(samples).rto == if x <= 50.0 then 50 else if x >= 2000.0 then 2000 else x.Floor
  {
    SteadyLine(samples, s);
    hide *;
    TimeoutIs(samples);
    FourTimesDecayed(s, |samples| - 1);
    InMilliseconds(s + Twice(s, |samples| - 1));
  }

  lemma TimeoutIs(samples: seq<real>)
    requires samples != []
    ensures var r := AfterSamples(samples); r.rto == Clamp(r.srtt + 4.0 * r.rttvar, 50.0, 2000.0).Floor
  {
  }

  lemma FourTimesDecayed(s: real, n: nat)
    ensures 4.0 * Decayed(s, n) == Twice(s, n)
  {
    var h, p := s / 2.0, Power(0.75, n);
    hide Power;
    assert s == 2.0 * h;
    assert (2.0 * h) * p == 2.0 * (h * p);
  }

  lemma InMilliseconds(x: real)
    ensures Clamp(x, 50.0, 2000.0).Floor == if x <= 50.0 then 50 else if x >= 2000.0 then 2000 else x.Floor
  {
  }

  /** One more sample moves the smoothed time an eighth of the way to it, and the
      variation a quarter of the way to how far it was off. */
  lemma OneMoreSample(samples: seq<real>, x: real)
    requires samples != []
    ensures var before, after := AfterSamples(samples), AfterSamples(samples + [x]);
      var off := if x < before.srtt then before.srtt - x else x - before.srtt;
      && 8.0 * (after.srtt - before.srtt) == x - before.srtt
      && 4.0 * (after.rttvar - before.rttvar) == off - before.rttvar
  {
    assert (samples + [x])[..|samples|] == samples;
    assert AfterSamples(samples).hasSample;
  }
}
