/** The sliding-window limiter on connection requests, by source address. */
module RateLimit {
  import opened Wrappers

  /** The moments less than a window ago. */
  function Recent(times: seq<Instant>, window: nat, now: Instant): (kept: seq<Instant>)
    ensures |kept| <= |times|
  {
    if times == [] then []
    else
      var front, t := Recent(times[..|times| - 1], window, now), times[|times| - 1];
      if Elapsed(now, t) < window then front + [t] else front
  }

  function TimesOf<Ip(==)>(requests: map<Ip, seq<Instant>>, ip: Ip): seq<Instant> {
    if ip in requests then requests[ip] else []
  }

  function Admits<Ip(==)>(requests: map<Ip, seq<Instant>>, limit: nat, window: nat, ip: Ip, now: Instant): bool {
    |Recent(TimesOf(requests, ip), window, now)| < limit
  }

  function Requested<Ip(==)>(requests: map<Ip, seq<Instant>>, limit: nat, window: nat, ip: Ip,
                             now: Instant): map<Ip, seq<Instant>> {
    var kept := Recent(TimesOf(requests, ip), window, now);
    requests[ip := if |kept| < limit then kept + [now] else kept]
  }

  function Cleaned<Ip(==)>(requests: map<Ip, seq<Instant>>, window: nat, now: Instant): map<Ip, seq<Instant>> {
    map ip | ip in requests && Recent(requests[ip], window, now) != [] :: Recent(requests[ip], window, now)
  }

  method Retain(times: seq<Instant>, window: nat, now: Instant) returns (kept: seq<Instant>)
    ensures kept == Recent(times, window, now)
  {
    kept := [];
    for i := 0 to |times|
      invariant kept == Recent(times[..i], window, now)
    {
      assert times[..i + 1][..i] == times[..i];
      if Elapsed(now, times[i]) < window { kept := kept + [times[i]]; }
    }
    assert times[..|times|] == times;
  }

  class ConnectionRateLimiter<Ip(==,!new)> {
    var requests: map<Ip, seq<Instant>>
    const maxRequestsPerSecond: nat
    const window: nat

    constructor (maxRequestsPerSecond: nat, second: nat)
      ensures requests == map[] && this.maxRequestsPerSecond == maxRequestsPerSecond && window == second
    {
      requests, this.maxRequestsPerSecond, window := map[], maxRequestsPerSecond, second;
    }

    method Allow(ip: Ip, now: Instant) returns (allowed: bool)
      modifies this
      ensures allowed == Admits(old(requests), maxRequestsPerSecond, window, ip, now)
      ensures requests == Requested(old(requests), maxRequestsPerSecond, window, ip, now)
    {
      var timestamps := Retain(if ip in requests then requests[ip] else [], window, now);
      if |timestamps| >= maxRequestsPerSecond {
        requests := requests[ip := timestamps];
        return false;
      }
      requests := requests[ip := timestamps + [now]];
      return true;
    }

    method Cleanup(now: Instant)
      modifies this
      ensures requests == Cleaned(old(requests), window, now)
    {
      hide Recent;
      var left := requests.Keys;
      while left != {}
        invariant left <= old(requests).Keys && requests == CleanedExcept(old(requests), window, now, left)
        decreases |left|
      {
        var ip :| ip in left;
        left := left - {ip};
        var timestamps := Retain(requests[ip], window, now);
        requests := if timestamps != [] then requests[ip := timestamps] else requests - {ip};
      }
    }
  }

  function CleanedExcept<Ip(==)>(requests: map<Ip, seq<Instant>>, window: nat, now: Instant,
                                 left: set<Ip>): map<Ip, seq<Instant>> {
    map ip | ip in requests && (ip in left || Recent(requests[ip], window, now) != []) ::
      if ip in left then requests[ip] else Recent(requests[ip], window, now)
  }

  // ---------- whole runs ----------

  datatype Event<Ip> = Request(ip: Ip, now: Instant) | Cleanup(now: Instant)

  function Next<Ip(==)>(requests: map<Ip, seq<Instant>>, limit: nat, window: nat, e: Event<Ip>): map<Ip, seq<Instant>> {
    match e
    case Request(ip, now) => Requested(requests, limit, window, ip, now)
    case Cleanup(now) => Cleaned(requests, window, now)
  }

  function After<Ip(==)>(limit: nat, window: nat, events: seq<Event<Ip>>): map<Ip, seq<Instant>> {
    if events == [] then map[]
    else Next(After(limit, window, events[..|events| - 1]), limit, window, events[|events| - 1])
  }

  /** The requests of one address that are accepted, as the promise has it:
      those with fewer than `limit` accepted ones in the window before them. It
      knows nothing of cleaning up, nor of other addresses. */
  function Accepted<Ip(==)>(limit: nat, window: nat, ip: Ip, events: seq<Event<Ip>>): seq<Instant> {
    if events == [] then []
    else
      var before, e := Accepted(limit, window, ip, events[..|events| - 1]), events[|events| - 1];
      if e.Request? && e.ip == ip && |Recent(before, window, e.now)| < limit then before + [e.now] else before
  }

  ghost predicate Ordered<Ip>(events: seq<Event<Ip>>) {
    forall i, j :: 0 <= i < j < |events| ==> events[i].now <= events[j].now
  }

  lemma {:induction false} RecentOfRecent(times: seq<Instant>, window: nat, earlier: Instant, now: Instant)
    requires earlier <= now
    ensures Recent(Recent(times, window, earlier), window, now) == Recent(times, window, now)
  {
    if times != [] {
      var front := times[..|times| - 1];
      RecentOfRecent(front, window, earlier, now);
      RecentSnoc(Recent(front, window, earlier), times[|times| - 1], window, now);
    }
  }

  lemma RecentSnoc(times: seq<Instant>, t: Instant, window: nat, now: Instant)
    ensures Recent(times + [t], window, now)
         == if Elapsed(now, t) < window then Recent(times, window, now) + [t] else Recent(times, window, now)
  {
    assert (times + [t])[..|times|] == times;
  }

  /** The limiter has forgotten only what can no longer matter. */
  ghost predicate Remembers<Ip(!new)>(requests: map<Ip, seq<Instant>>, window: nat, ip: Ip, accepted: seq<Instant>,
                                      now: Instant) {
    forall later :: later >= now ==> Recent(TimesOf(requests, ip), window, later) == Recent(accepted, window, later)
  }

  lemma StepRemembers<Ip(!new)>(limit: nat, window: nat, ip: Ip, events: seq<Event<Ip>>, start: Instant)
    requires events != [] && start <= events[|events| - 1].now
    requires var front := events[..|events| - 1];
      Remembers(After(limit, window, front), window, ip, Accepted(limit, window, ip, front), start)
    ensures Remembers(After(limit, window, events), window, ip, Accepted(limit, window, ip, events),
          events[|events| - 1].now)
  {
    var front, e := events[..|events| - 1], events[|events| - 1];
    var requests, accepted := After(limit, window, front), Accepted(limit, window, ip, front);
    var times := TimesOf(requests, ip);
    hide Recent;
    forall later | later >= e.now
      ensures Recent(TimesOf(After(limit, window, events), ip), window, later)
           == Recent(Accepted(limit, window, ip, events), window, later)
    {
      RecentOfRecent(times, window, e.now, later);
      RecentSnoc(Recent(times, window, e.now), e.now, window, later);
      RecentSnoc(accepted, e.now, window, later);
    }
  }

  lemma {:induction false} RunRemembers<Ip(!new)>(limit: nat, window: nat, ip: Ip, events: seq<Event<Ip>>, now: Instant)
    requires Ordered(events) && (events != [] ==> events[|events| - 1].now <= now)
    ensures Remembers(After(limit, window, events), window, ip, Accepted(limit, window, ip, events), now)
    decreases |events|
  {
    if events != [] {
      var front, last := events[..|events| - 1], events[|events| - 1].now;
      RunRemembers(limit, window, ip, front, last);
      hide After, Accepted;
      StepRemembers(limit, window, ip, events, last);
    }
  }

  /** On a clock that does not run back, a request is let through exactly when
      fewer than the limit were let through for its address in the window before
      it; cleaning up and other addresses never change a decision. */
  lemma AdmitsAsPromised<Ip(!new)>(limit: nat, window: nat, ip: Ip, events: seq<Event<Ip>>, now: Instant)
    requires Ordered(events) && (events != [] ==> events[|events| - 1].now <= now)
    ensures Admits(After(limit, window, events), limit, window, ip, now)
       <==> |Recent(Accepted(limit, window, ip, events), window, now)| < limit
  {
    RunRemembers(limit, window, ip, events, now);
    hide After, Accepted, Recent;
  }

  function CountWithin(times: seq<Instant>, from: Instant, window: nat): nat {
    if times == [] then 0
    else
      var t := times[|times| - 1];
      CountWithin(times[..|times| - 1], from, window) + if from <= t < from + window then 1 else 0
  }

  lemma {:induction false} WithinIsRecent(times: seq<Instant>, from: Instant, window: nat, now: Instant)
    requires from <= now < from + window
    ensures CountWithin(times, from, window) <= |Recent(times, window, now)|
  {
    if times != [] { WithinIsRecent(times[..|times| - 1], from, window, now); }
  }

  lemma {:induction false} AcceptedFitWindows<Ip(!new)>(limit: nat, window: nat, ip: Ip, events: seq<Event<Ip>>,
                                                        from: Instant)
    ensures CountWithin(Accepted(limit, window, ip, events), from, window) <= limit
    decreases |events|
  {
    if events != [] {
      var front, e := events[..|events| - 1], events[|events| - 1];
      AcceptedFitWindows(limit, window, ip, front, from);
      var before := Accepted(limit, window, ip, front);
      assert (before + [e.now])[..|before|] == before;
      if from <= e.now < from + window { WithinIsRecent(before, from, window, e.now); }
    }
  }

  /** The moments at which the limiter let the address through. */
  function Allowed<Ip(==)>(limit: nat, window: nat, ip: Ip, events: seq<Event<Ip>>): seq<Instant> {
    if events == [] then []
    else
      var front, e := events[..|events| - 1], events[|events| - 1];
      var before := Allowed(limit, window, ip, front);
      if e.Request? && e.ip == ip && Admits(After(limit, window, front), limit, window, ip, e.now)
      then before + [e.now] else before
  }

  lemma {:induction false} AllowedIsAccepted<Ip(!new)>(limit: nat, window: nat, ip: Ip, events: seq<Event<Ip>>)
    requires Ordered(events)
    ensures Allowed(limit, window, ip, events) == Accepted(limit, window, ip, events)
  {
    if events != [] {
      var front, e := events[..|events| - 1], events[|events| - 1];
      AllowedIsAccepted(limit, window, ip, front);
      AdmitsAsPromised(limit, window, ip, front, e.now);
      hide Admits, After, Recent;
    }
  }

  /** On a clock that does not run back, wherever a window is laid, the limiter
      lets through no more than its limit there. */
  lemma NoWindowOverflows<Ip(!new)>(limit: nat, window: nat, ip: Ip, events: seq<Event<Ip>>, from: Instant)
    requires Ordered(events)
    ensures CountWithin(Allowed(limit, window, ip, events), from, window) <= limit
  {
    AllowedIsAccepted(limit, window, ip, events);
    AcceptedFitWindows(limit, window, ip, events, from);
  }
}
