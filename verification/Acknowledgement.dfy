/** Both halves of the endpoint joined by a network: what one side takes as
    acknowledged, against what the other side got. */
module Acknowledgement {
  import opened Wrappers
  import opened SequenceNumbers
  import opened Bits
  import opened AckWindow
  import opened InFlight

  /** A sender, the packets that have come to its peer, and beside them, kept only
      to speak about the run, the unbounded number of each packet tracked and the
      numbers taken as acknowledged. */
  datatype Link = Link(
    next: nat,
    out: Outbound,
    arrivals: seq<int>,
    numbers: map<u16, int>,
    acked: set<int>)

  const NEW_LINK := Link(0, NewOutbound(), [], map[], {})

  /** Packets may be lost, repeated and late, and so may acknowledgements: a
      report is what the peer could write after its first `upTo` arrivals. */
  datatype Event =
    | Track(packet: SentPacket)
    | SendUntracked
    | Arrive(number: int)
    | Report(upTo: nat, now: Instant)

  function TakenBy(s: Link, out': Outbound): set<int>
    requires s.out.sent.Keys <= s.numbers.Keys
  {
    set k | k in s.out.sent && k !in out'.sent :: s.numbers[k]
  }

  /** The sender processes what the peer could report after `upTo` arrivals. */
  function Reported(size: nat, s: Link, upTo: nat, now: Instant): Link
    requires size > 0 && upTo <= |s.arrivals| && GoodRing(s.out) && s.out.sent.Keys <= s.numbers.Keys
  {
    var peer := After(size, s.arrivals[..upTo]);
    var out' := AfterAcks(s.out, peer.remoteSequence, peer.ackBits, now);
    s.(out := out', acked := s.acked + TakenBy(s, out'))
  }

  ghost predicate Step(size: nat, maxInFlight: nat, s: Link, e: Event, s': Link)
    requires size > 0
  {
    match e
    case Track(p) =>
      && p.nackCount == 0 && Sends(maxInFlight, s.out, Wrap(s.next), p, s'.out)
      && s' == s.(next := s.next + 1, out := s'.out, numbers := s.numbers[Wrap(s.next) := s.next])
    case SendUntracked => s' == s.(next := s.next + 1)
    case Arrive(n) => 0 <= n < s.next && s' == s.(arrivals := s.arrivals + [n])
    case Report(upTo, now) =>
      && upTo <= |s.arrivals| && GoodRing(s.out) && s.out.sent.Keys <= s.numbers.Keys
      && s' == Reported(size, s, upTo, now)
  }

  /** The peer's window is exact when the report is written. */
  ghost predicate WindowIsExactFor(size: nat, s: Link, e: Event)
    requires size > 0
  {
    e.Report? && e.upTo <= |s.arrivals| ==>
      InReachOf(s.arrivals[..e.upTo]) && NeverOvershifts(size, s.arrivals[..e.upTo])
  }

  // ---------- one report ----------

  /** The latest packet of that number is one the report tells of. */
  predicate Told(newest: int, arrived: set<int>, k: u16) {
    Unwrap(newest, k) in arrived && Unwrap(newest, k) >= newest - ACK_BITS_WINDOW
  }

  /** Another packet of the same 16-bit number is told of. */
  predicate Mistaken(newest: int, arrived: set<int>, n: int) {
    Unwrap(newest, Wrap(n)) != n && Told(newest, arrived, Wrap(n))
  }

  /** The packet itself has come and is among the last 65. */
  predicate Came(newest: int, arrived: set<int>, n: int) { n in arrived && n >= newest - ACK_BITS_WINDOW }

  /** Less than a whole cycle of numbers from the newest packet nothing is mistaken. */
  lemma MistakenIsFar(newest: int, arrived: set<int>, n: int)
    requires Mistaken(newest, arrived, n)
    ensures n <= newest - FULL_RANGE || n >= newest + FULL_RANGE - ACK_BITS_WINDOW
  {
    if newest - FULL_RANGE < n <= newest { UnwrapOf(newest, n); }
  }

  /** An exact window names a number just if it tells of its latest packet. */
  lemma NamedIffTold(bits: u64, newest: int, arrived: set<int>, k: u16)
    requires Exact(bits, newest, arrived) && newest in arrived && (forall m :: m in arrived ==> m <= newest)
    ensures k in AckOrder(Wrap(newest), bits, ACK_BITS_WINDOW) <==> Told(newest, arrived, k)
  {
    NamedIff(Wrap(newest), bits, ACK_BITS_WINDOW, k);
    BackIs(newest, k);
    var back := newest - Unwrap(newest, k);
    hide AckOrder, TestBit, Wrap, WrappingSub, Unwrap;
    if 1 <= back <= ACK_BITS_WINDOW {
      assert TestBit(bits, back - 1) <==> newest - (back - 1 + 1) in arrived;
    }
  }

  lemma BackIs(newest: int, k: u16)
    ensures WrappingSub(Wrap(newest), k) == newest - Unwrap(newest, k)
    ensures k == Wrap(newest) <==> Unwrap(newest, k) == newest
  {
  }

  /** A packet that has come and is recent is the latest of its number. */
  lemma CameIsLatest(newest: int, arrived: set<int>, n: int)
    requires forall m :: m in arrived ==> m <= newest
    ensures Came(newest, arrived, n) ==> Unwrap(newest, Wrap(n)) == n
  {
    if Came(newest, arrived, n) { UnwrapOf(newest, n); }
  }

  lemma ReportNames(size: nat, o: Outbound, arrivals: seq<int>, k: u16, now: Instant)
    requires GoodSize(size) && InReachOf(arrivals) && NeverOvershifts(size, arrivals) && GoodRing(o) && k in o.sent
    ensures var peer := After(size, arrivals);
      k !in AfterAcks(o, peer.remoteSequence, peer.ackBits, now).sent
      <==> Told(NewestOf(arrivals), ArrivedOf(arrivals), k)
  {
    var peer := After(size, arrivals);
    WindowIsExact(size, arrivals);
    RunTracks(size, arrivals);
    hide After, InReachOf, NeverOvershifts, AfterAcks, AckOrder, Exact, GoodSize, Wrap, Told;
    AfterAcksEffect(o, peer.remoteSequence, peer.ackBits, now);
    NamedIffTold(peer.ackBits, NewestOf(arrivals), ArrivedOf(arrivals), k);
  }

  /** So what a report says of a packet in flight is right, that it has come and
      is recent or not, if and only if the packet is not mistaken for another. */
  lemma ReportIsRightIff(size: nat, o: Outbound, arrivals: seq<int>, n: int, now: Instant)
    requires GoodSize(size) && InReachOf(arrivals) && NeverOvershifts(size, arrivals) && GoodRing(o)
    requires Wrap(n) in o.sent
    ensures var peer, newest, arrived := After(size, arrivals), NewestOf(arrivals), ArrivedOf(arrivals);
      (Wrap(n) !in AfterAcks(o, peer.remoteSequence, peer.ackBits, now).sent <==> Came(newest, arrived, n))
      <==> !Mistaken(newest, arrived, n)
  {
    ReportNames(size, o, arrivals, Wrap(n), now);
    RunTracks(size, arrivals);
    hide After, InReachOf, NeverOvershifts, AfterAcks, GoodSize, Wrap, Unwrap;
    CameIsLatest(NewestOf(arrivals), ArrivedOf(arrivals), n);
  }

  lemma MissedIffAbsent(bits: u64, newest: int, arrived: set<int>, k: u16)
    requires Exact(bits, newest, arrived)
    ensures Missed(Wrap(newest), bits, k) <==>
      newest - 64 <= Unwrap(newest, k) < newest && Unwrap(newest, k) !in arrived
  {
    BackIs(newest, k);
    var back := newest - Unwrap(newest, k);
    hide TestBit, Wrap, WrappingSub, Unwrap;
    if 1 <= back <= ACK_BITS_WINDOW {
      assert TestBit(bits, back - 1) <==> newest - (back - 1 + 1) in arrived;
    }
  }

  /** And it counts a miss against a packet's number if and only if the latest packet
      of that number is one of the 64 before the newest and has not come. */
  lemma ReportMissesIff(size: nat, arrivals: seq<int>, k: u16)
    requires GoodSize(size) && InReachOf(arrivals) && NeverOvershifts(size, arrivals)
    ensures var peer, newest, m := After(size, arrivals), NewestOf(arrivals), Unwrap(NewestOf(arrivals), k);
      Missed(peer.remoteSequence, peer.ackBits, k) <==> newest - 64 <= m < newest && m !in ArrivedOf(arrivals)
  {
    var peer := After(size, arrivals);
    WindowIsExact(size, arrivals);
    RunTracks(size, arrivals);
    assert peer.remoteSequence == Wrap(NewestOf(arrivals));
    hide *;
    MissedIffAbsent(peer.ackBits, NewestOf(arrivals), ArrivedOf(arrivals), k);
  }

  // ---------- whole runs ----------

  /** What holds on every run at all: no packet is counted twice. */
  ghost predicate Sane(s: Link) {
    && GoodRing(s.out) && s.out.sent.Keys <= s.numbers.Keys
    && (forall k :: k in s.numbers ==> 0 <= s.numbers[k] < s.next && Wrap(s.numbers[k]) == k)
    && (forall n :: n in s.acked ==> 0 <= n < s.next && (Wrap(n) in s.out.sent ==> s.numbers[Wrap(n)] != n))
    && |s.acked| == s.out.totalAcked
  }

  ghost predicate IsRun(size: nat, maxInFlight: nat, run: seq<Link>, events: seq<Event>)
    requires size > 0
  {
    && |run| == |events| + 1 && run[0] == NEW_LINK
    && forall i :: 0 <= i < |events| ==> Step(size, maxInFlight, run[i], events[i], run[i + 1])
  }

  lemma SendsEffect(maxInFlight: nat, o: Outbound, k: u16, p: SentPacket, o': Outbound)
    requires Sends(maxInFlight, o, k, p, o')
    ensures o'.sent.Keys <= o.sent.Keys + {k} && o'.totalAcked == o.totalAcked && o'.losses == o.losses
  {
  }

  lemma TrackIsSane(size: nat, maxInFlight: nat, s: Link, p: SentPacket, s': Link)
    requires size > 0 && Sane(s) && Step(size, maxInFlight, s, Track(p), s')
    ensures Sane(s')
  {
    SendsEffect(maxInFlight, s.out, Wrap(s.next), p, s'.out);
    hide Sends, ArrivedOf;
  }

  lemma {:induction false} ImageSize(keys: set<u16>, numbers: map<u16, int>)
    requires keys <= numbers.Keys && forall k :: k in keys ==> Wrap(numbers[k]) == k
    ensures |set k | k in keys :: numbers[k]| == |keys|
  {
    if keys != {} {
      var k :| k in keys;
      ImageSize(keys - {k}, numbers);
      hide Wrap;
      var rest := set j | j in keys - {k} :: numbers[j];
      assert (set j | j in keys :: numbers[j]) == rest + {numbers[k]};
      assert numbers[k] !in rest;
    }
  }

  lemma KeysSplit(sent: map<u16, SentPacket>, left: map<u16, SentPacket>)
    requires left.Keys <= sent.Keys
    ensures |sent.Keys - left.Keys| == |sent| - |left|
  {
    assert sent.Keys == sent.Keys - left.Keys + left.Keys;
  }

  lemma ReportMoves(size: nat, maxInFlight: nat, s: Link, upTo: nat, now: Instant, s': Link)
    requires size > 0 && Sane(s) && Step(size, maxInFlight, s, Report(upTo, now), s')
    ensures s' == s.(out := s'.out, acked := s.acked + TakenBy(s, s'.out))
    ensures s'.out.sent.Keys <= s.out.sent.Keys && GoodRing(s'.out)
    ensures |TakenBy(s, s'.out)| == s'.out.totalAcked - s.out.totalAcked
  {
    var peer := After(size, s.arrivals[..upTo]);
    AfterAcksEffect(s.out, peer.remoteSequence, peer.ackBits, now);
    hide AfterAcks, After, AckOrder, Wrap;
    KeysSplit(s.out.sent, s'.out.sent);
    ImageSize(s.out.sent.Keys - s'.out.sent.Keys, s.numbers);
    assert TakenBy(s, s'.out) == set k | k in s.out.sent.Keys - s'.out.sent.Keys :: s.numbers[k];
  }

  /** The numbers a report takes as acknowledged are new, each counted once. */
  lemma ReportIsSane(size: nat, maxInFlight: nat, s: Link, upTo: nat, now: Instant, s': Link)
    requires size > 0 && Sane(s) && Step(size, maxInFlight, s, Report(upTo, now), s')
    ensures Sane(s')
  {
    ReportMoves(size, maxInFlight, s, upTo, now, s');
    hide Reported, Step, GoodRing, Wrap;
    var taken := TakenBy(s, s'.out);
    assert taken !! s.acked;
    assert forall n :: n in taken ==> Wrap(n) !in s'.out.sent;
  }

  lemma StepIsSane(size: nat, maxInFlight: nat, s: Link, e: Event, s': Link)
    requires size > 0 && Sane(s) && Step(size, maxInFlight, s, e, s')
    ensures Sane(s')
  {
    match e
    case Track(p) => hide *; TrackIsSane(size, maxInFlight, s, p, s');
    case SendUntracked => hide GoodRing;
    case Arrive(n) => hide GoodRing;
    case Report(upTo, now) => hide *; ReportIsSane(size, maxInFlight, s, upTo, now, s');
  }

  lemma {:induction false} RunIsSane(size: nat, maxInFlight: nat, run: seq<Link>, events: seq<Event>, k: nat)
    requires size > 0 && IsRun(size, maxInFlight, run, events) && k <= |events|
    ensures Sane(run[k])
    decreases k
  {
    if k > 0 {
      hide Sane, Step;
      RunIsSane(size, maxInFlight, run, events, k - 1);
      StepIsSane(size, maxInFlight, run[k - 1], events[k - 1], run[k]);
    } else {
      assert NEW_LINK.acked == {};
    }
  }

  /** On every run whatever the counter of acknowledged packets is the number of
      different packets taken as such. */
  lemma EachCountsOnce(size: nat, maxInFlight: nat, run: seq<Link>, events: seq<Event>)
    requires size > 0 && IsRun(size, maxInFlight, run, events)
    ensures var s := run[|events|]; s.out.totalAcked == |s.acked| && forall n :: n in s.acked ==> 0 <= n < s.next
  {
    RunIsSane(size, maxInFlight, run, events, |events|);
  }

  /** A report with an exact window takes just the packets whose number it tells of. */
  lemma ReportTakes(size: nat, maxInFlight: nat, s: Link, upTo: nat, now: Instant, s': Link)
    requires GoodSize(size) && Sane(s) && Step(size, maxInFlight, s, Report(upTo, now), s')
    requires WindowIsExactFor(size, s, Report(upTo, now))
    ensures s'.arrivals == s.arrivals && s'.acked == s.acked + TakenBy(s, s'.out)
    ensures var got := s.arrivals[..upTo]; forall k :: k in s.out.sent ==>
      (s.numbers[k] in TakenBy(s, s'.out) <==> Told(NewestOf(got), ArrivedOf(got), k))
    ensures forall n :: n in TakenBy(s, s'.out) ==> Wrap(n) in s.out.sent && s.numbers[Wrap(n)] == n
  {
    var got := s.arrivals[..upTo];
    hide AfterAcks, After, ArrivedOf, NewestOf, InReachOf, NeverOvershifts, GoodSize, Wrap, Told;
    forall k | k in s.out.sent
      ensures k !in s'.out.sent <==> Told(NewestOf(got), ArrivedOf(got), k)
    {
      ReportNames(size, s.out, got, k, now);
    }
    forall k | k in s.out.sent
      ensures s.numbers[k] in TakenBy(s, s'.out) <==> k !in s'.out.sent
    {
    }
  }

  /** The numbers in flight of packets that have come and are recent. */
  function CameInFlight(s: Link, newest: int, arrived: set<int>): set<int>
    requires s.out.sent.Keys <= s.numbers.Keys
  {
    set k | k in s.out.sent && Came(newest, arrived, s.numbers[k]) :: s.numbers[k]
  }

  lemma TakesCameIff(s: Link, taken: set<int>, newest: int, arrived: set<int>)
    requires Sane(s) && forall m :: m in arrived ==> m <= newest
    requires forall k :: k in s.out.sent ==> (s.numbers[k] in taken <==> Told(newest, arrived, k))
    requires forall n :: n in taken ==> Wrap(n) in s.out.sent && s.numbers[Wrap(n)] == n
    ensures taken == CameInFlight(s, newest, arrived)
       <==> forall k :: k in s.out.sent ==> !Mistaken(newest, arrived, s.numbers[k])
  {
    hide Wrap, Unwrap, GoodRing;
    forall k | k in s.out.sent
      ensures (s.numbers[k] in taken <==> Came(newest, arrived, s.numbers[k]))
         <==> !Mistaken(newest, arrived, s.numbers[k])
    {
      CameIsLatest(newest, arrived, s.numbers[k]);
    }
    hide Told, Mistaken, Came;
    if forall k :: k in s.out.sent ==> !Mistaken(newest, arrived, s.numbers[k]) {
      forall n
        ensures n in taken <==> n in CameInFlight(s, newest, arrived)
      {
        if n in taken { assert Came(newest, arrived, s.numbers[Wrap(n)]); }
      }
    } else {
      var k :| k in s.out.sent && Mistaken(newest, arrived, s.numbers[k]);
      assert s.numbers[k] in CameInFlight(s, newest, arrived) <==> Came(newest, arrived, s.numbers[k]);
    }
  }

  /** Each report takes exactly the packets in flight that had come by then and are
      recent if and only if none of them is mistaken for another. */
  lemma ReportsTakeWhatCameIff(size: nat, maxInFlight: nat, run: seq<Link>, events: seq<Event>, i: nat)
    requires GoodSize(size) && IsRun(size, maxInFlight, run, events) && i < |events| && events[i].Report?
    requires WindowIsExactFor(size, run[i], events[i])
    ensures events[i].upTo <= |run[i].arrivals| && run[i].out.sent.Keys <= run[i].numbers.Keys
    ensures var s, got := run[i], run[i].arrivals[..events[i].upTo];
      var newest, arrived := NewestOf(got), ArrivedOf(got);
      && run[i + 1].acked == s.acked + TakenBy(s, run[i + 1].out)
      && (TakenBy(s, run[i + 1].out) == CameInFlight(s, newest, arrived)
          <==> forall k :: k in s.out.sent ==> !Mistaken(newest, arrived, s.numbers[k]))
  {
    RunIsSane(size, maxInFlight, run, events, i);
    var s, s' := run[i], run[i + 1];
    assert Step(size, maxInFlight, s, events[i], s');
    var got := s.arrivals[..events[i].upTo];
    ReportTakes(size, maxInFlight, s, events[i].upTo, events[i].now, s');
    RunTracks(size, got);
    hide ArrivedOf, NewestOf, GoodSize, Step, TakenBy, After, Wrap, Told, InReachOf, CameInFlight, Mistaken;
    TakesCameIff(s, TakenBy(s, s'.out), NewestOf(got), ArrivedOf(got));
  }

  lemma {:induction false} ArrivedPrefix(arrivals: seq<int>, k: nat)
    requires k <= |arrivals|
    ensures ArrivedOf(arrivals[..k]) <= ArrivedOf(arrivals)
    decreases |arrivals|
  {
    if k < |arrivals| {
      ArrivedPrefix(arrivals[..|arrivals| - 1], k);
      assert arrivals[..|arrivals| - 1][..k] == arrivals[..k];
    } else {
      assert arrivals[..k] == arrivals;
    }
  }

  lemma {:induction false} ArrivalsGrow(size: nat, maxInFlight: nat, run: seq<Link>, events: seq<Event>, i: nat, j: nat)
    requires size > 0 && IsRun(size, maxInFlight, run, events) && i <= j <= |events|
    ensures run[i].arrivals <= run[j].arrivals
    decreases j
  {
    hide Step;
    if i < j {
      ArrivalsGrow(size, maxInFlight, run, events, i, j - 1);
      assert Step(size, maxInFlight, run[j - 1], events[j - 1], run[j]);
      hide *;
      ArrivalsStep(size, maxInFlight, run[j - 1], events[j - 1], run[j]);
      PrefixOfPrefix(run[i].arrivals, run[j - 1].arrivals, run[j].arrivals);
    }
  }

  lemma PrefixOfPrefix(a: seq<int>, b: seq<int>, c: seq<int>)
    requires a <= b && b <= c
    ensures a <= c
  {
  }

  lemma ArrivalsStep(size: nat, maxInFlight: nat, s: Link, e: Event, s': Link)
    requires size > 0 && Step(size, maxInFlight, s, e, s')
    ensures s.arrivals <= s'.arrivals
  {
    hide Sends, After, AfterAcks;
  }

  /** When the report comes a record under number `k` is in flight. */
  predicate StillInFlight(s: Link, e: Event, k: u16) {
    e.Report? && e.upTo <= |s.arrivals| && k in s.out.sent && k in s.numbers
  }

  /** At the i-th event the record under number `k` was mistaken for another. */
  ghost predicate MistakenAt(run: seq<Link>, events: seq<Event>, i: nat, k: u16)
    requires |run| == |events| + 1
  {
    && i < |events| && StillInFlight(run[i], events[i], k)
    && var got := run[i].arrivals[..events[i].upTo]; Mistaken(NewestOf(got), ArrivedOf(got), run[i].numbers[k])
  }

  ghost predicate MistakenCameAt(run: seq<Link>, events: seq<Event>, i: nat, come: set<int>)
    requires |run| == |events| + 1
  {
    forall k :: MistakenAt(run, events, i, k) ==> run[i].numbers[k] in come
  }

  /** The records mistaken before event `m` are all of packets in `come`. */
  ghost predicate MistakenCame(run: seq<Link>, events: seq<Event>, m: nat, come: set<int>)
    requires |run| == |events| + 1
  {
    forall i: nat :: i < m ==> MistakenCameAt(run, events, i, come)
  }

  lemma ReportAcksIff(size: nat, maxInFlight: nat, run: seq<Link>, events: seq<Event>, i: nat, come: set<int>)
    requires GoodSize(size) && IsRun(size, maxInFlight, run, events) && i < |events| && events[i].Report?
    requires WindowIsExactFor(size, run[i], events[i]) && ArrivedOf(run[i].arrivals) <= come
    ensures run[i + 1].acked <= come <==> run[i].acked <= come && MistakenCameAt(run, events, i, come)
  {
    RunIsSane(size, maxInFlight, run, events, i);
    var s, s' := run[i], run[i + 1];
    assert Step(size, maxInFlight, s, events[i], s');
    var got := s.arrivals[..events[i].upTo];
    ReportTakes(size, maxInFlight, s, events[i].upTo, events[i].now, s');
    ArrivedPrefix(s.arrivals, events[i].upTo);
    hide ArrivedOf, NewestOf, GoodSize, Step, After, Wrap, Unwrap, InReachOf, TakenBy, GoodRing;
    var newest, arrived, taken := NewestOf(got), ArrivedOf(got), TakenBy(s, s'.out);
    forall k | k in s.out.sent && Told(newest, arrived, k)
      ensures MistakenAt(run, events, i, k) || s.numbers[k] in come
    {
    }
    hide Told;
    forall k | MistakenAt(run, events, i, k)
      ensures s.numbers[k] in taken
    {
      MistakenIsTold(newest, arrived, s.numbers[k]);
    }
    forall n | n in taken
      ensures n in come || MistakenAt(run, events, i, Wrap(n))
    {
      assert s.numbers[Wrap(n)] == n;
    }
  }

  lemma MistakenIsTold(newest: int, arrived: set<int>, n: int)
    ensures Mistaken(newest, arrived, n) ==> Told(newest, arrived, Wrap(n))
  {
  }

  lemma OtherAcksNothing(size: nat, maxInFlight: nat, s: Link, e: Event, s': Link)
    requires size > 0 && Step(size, maxInFlight, s, e, s') && !e.Report?
    ensures s'.acked == s.acked
  {
  }

  lemma StepAcksIff(size: nat, maxInFlight: nat, run: seq<Link>, events: seq<Event>, i: nat, come: set<int>)
    requires GoodSize(size) && IsRun(size, maxInFlight, run, events) && i < |events|
    requires WindowIsExactFor(size, run[i], events[i]) && ArrivedOf(run[i].arrivals) <= come
    ensures run[i + 1].acked <= come <==> run[i].acked <= come && MistakenCameAt(run, events, i, come)
  {
    assert Step(size, maxInFlight, run[i], events[i], run[i + 1]);
    if events[i].Report? {
      hide *;
      ReportAcksIff(size, maxInFlight, run, events, i, come);
    } else {
      hide Step, ArrivedOf, WindowIsExactFor, MistakenCameAt;
      OtherAcksNothing(size, maxInFlight, run[i], events[i], run[i + 1]);
      NoneMistaken(run, events, i, come);
    }
  }

  lemma NothingAcked(run: seq<Link>, events: seq<Event>, come: set<int>)
    requires |run| == |events| + 1 && run[0] == NEW_LINK
    ensures run[0].acked <= come && MistakenCame(run, events, 0, come)
  {
    hide MistakenCameAt;
  }

  lemma {:induction false} AcksIff(size: nat, maxInFlight: nat, run: seq<Link>, events: seq<Event>, m: nat,
                                   come: set<int>)
    requires GoodSize(size) && IsRun(size, maxInFlight, run, events) && m <= |events|
    requires forall i :: 0 <= i < |events| ==> WindowIsExactFor(size, run[i], events[i])
    requires forall i :: 0 <= i <= |events| ==> ArrivedOf(run[i].arrivals) <= come
    ensures run[m].acked <= come <==> MistakenCame(run, events, m, come)
    decreases m
  {
    hide *;
    RunStarts(size, maxInFlight, run, events);
    if m == 0 {
      NothingAcked(run, events, come);
    } else {
      AcksIff(size, maxInFlight, run, events, m - 1, come);
      StepAcksIff(size, maxInFlight, run, events, m - 1, come);
      OneMoreEvent(run, events, m - 1, come);
    }
  }

  lemma RunStarts(size: nat, maxInFlight: nat, run: seq<Link>, events: seq<Event>)
    requires GoodSize(size) && IsRun(size, maxInFlight, run, events)
    ensures |run| == |events| + 1 && run[0] == NEW_LINK
  {
  }

  lemma NoneMistaken(run: seq<Link>, events: seq<Event>, i: nat, come: set<int>)
    requires |run| == |events| + 1 && i < |events| && !events[i].Report?
    ensures MistakenCameAt(run, events, i, come)
  {
  }

  lemma OneMoreEvent(run: seq<Link>, events: seq<Event>, m: nat, come: set<int>)
    requires |run| == |events| + 1
    ensures MistakenCame(run, events, m + 1, come)
       <==> MistakenCame(run, events, m, come) && MistakenCameAt(run, events, m, come)
  {
    hide MistakenCameAt;
    if MistakenCame(run, events, m + 1, come) {
      assert MistakenCameAt(run, events, m, come);
      forall i: nat | i < m ensures MistakenCameAt(run, events, i, come) { assert i < m + 1; }
    }
  }

  /** Over any run, with losses, repeats, late packets and late reports: the packets
      taken as acknowledged have all arrived if and only if so have those among them
      that were mistaken for another packet of the same 16-bit number. */
  lemma AcknowledgedHaveArrivedIff(size: nat, maxInFlight: nat, run: seq<Link>, events: seq<Event>)
    requires GoodSize(size) && IsRun(size, maxInFlight, run, events)
    requires forall i :: 0 <= i < |events| ==> WindowIsExactFor(size, run[i], events[i])
    ensures var s := run[|events|];
      s.acked <= ArrivedOf(s.arrivals) <==> MistakenCame(run, events, |events|, ArrivedOf(s.arrivals))
  {
    forall i | 0 <= i <= |events|
      ensures ArrivedOf(run[i].arrivals) <= ArrivedOf(run[|events|].arrivals)
    {
      ArrivalsGrow(size, maxInFlight, run, events, i, |events|);
      var all := run[|events|].arrivals;
      ArrivedPrefix(all, |run[i].arrivals|);
      assert all[..|run[i].arrivals|] == run[i].arrivals;
    }
    hide *;
    AcksIff(size, maxInFlight, run, events, |events|, ArrivedOf(run[|events|].arrivals));
  }

  /** Less than a whole cycle of numbers from the newest packet reported. */
  predicate WithinCycle(newest: int, n: int) { newest - FULL_RANGE < n < newest + FULL_RANGE - ACK_BITS_WINDOW }

  /** So they have all arrived on every run that leaves no packet in flight for a
      whole cycle of numbers. */
  lemma AcknowledgedHaveArrived(size: nat, maxInFlight: nat, run: seq<Link>, events: seq<Event>)
    requires GoodSize(size) && IsRun(size, maxInFlight, run, events)
    requires forall i :: 0 <= i < |events| ==> WindowIsExactFor(size, run[i], events[i])
    requires forall i, k :: 0 <= i < |events| && StillInFlight(run[i], events[i], k) ==>
      WithinCycle(NewestOf(run[i].arrivals[..events[i].upTo]), run[i].numbers[k])
    ensures var s := run[|events|]; s.acked <= ArrivedOf(s.arrivals)
  {
    AcknowledgedHaveArrivedIff(size, maxInFlight, run, events);
    hide ArrivedOf, NewestOf, Step, WindowIsExactFor, Mistaken;
    forall i: nat, k | i < |events| && MistakenAt(run, events, i, k)
      ensures false
    {
      var got := run[i].arrivals[..events[i].upTo];
      MistakenIsFar(NewestOf(got), ArrivedOf(got), run[i].numbers[k]);
    }
  }

  // ---------- where an acknowledgement is not true ----------

  /** Number 0 counts as arrived although it need not have: a peer that has got
      nothing writes 0 for the newest number. */
  lemma {:induction false} ArrivedIs(arrivals: seq<int>, n: int)
    ensures n in ArrivedOf(arrivals) <==> n == 0 || n in arrivals
  {
    if arrivals != [] {
      var front := arrivals[..|arrivals| - 1];
      ArrivedIs(front, n);
      assert arrivals == front + [arrivals[|arrivals| - 1]];
    }
  }

  /** So the very first packet is taken as acknowledged on the peer's first word. */
  lemma FirstIsTakenUnseen(size: nat, maxInFlight: nat, run: seq<Link>, p: SentPacket, now: Instant)
    requires size > 0 && IsRun(size, maxInFlight, run, [Track(p), Report(0, now)])
    ensures run[2].acked == {0} && run[2].arrivals == []
  {
    var events := [Track(p), Report(0, now)];
    assert Step(size, maxInFlight, run[0], events[0], run[1]) && Step(size, maxInFlight, run[1], events[1], run[2]);
    var s := run[1];
    assert s.out.sent == map[0 := p] && s.arrivals[..0] == [];
    AfterAcksEffect(s.out, 0, 0, now);
    NamedIff(0, 0, ACK_BITS_WINDOW, 0);
    hide AfterAcks, AckOrder;
    assert run[2].out.sent == map[];
  }

  /** The run before the report: 66 packets sent, the one numbered 64 tracked, and
      packets 1 and 65 come. */
  function Before(p: SentPacket, i: nat): Link {
    if i <= 64 then NEW_LINK.(next := i)
    else Link(if i == 65 then 65 else 66, Tracked(NewOutbound(), 64, p),
              if i <= 66 then [] else if i == 67 then [1] else [1, 65], map[64 := 64], {})
  }

  function EventAt(p: SentPacket, i: nat): Event {
    if i == 64 then Track(p) else if i <= 65 then SendUntracked else if i == 66 then Arrive(1) else Arrive(65)
  }

  lemma BeforeSteps(size: nat, maxInFlight: nat, p: SentPacket, i: nat)
    requires size > 0 && p.nackCount == 0 && i < 68
    ensures Step(size, maxInFlight, Before(p, i), EventAt(p, i), Before(p, i + 1))
  {
    if i == 64 && maxInFlight == 0 { assert EvictsWorst(NewOutbound(), NewOutbound()); }
    hide NewOutbound, Tracked, EvictsWorst;
  }

  lemma FalseReport(size: nat, s: Link, now: Instant)
    requires GoodSize(size) && s.arrivals == [1, 65] && GoodRing(s.out) && s.out.sent.Keys <= s.numbers.Keys
    requires 64 in s.out.sent && s.numbers[64] == 64
    ensures var s' := Reported(size, s, 2, now); 64 in s'.acked && 64 !in s'.out.sent
  {
    var peer := After(size, [1, 65]);
    FalseAcknowledgement(size);
    NamedIff(65, peer.ackBits, ACK_BITS_WINDOW, 64);
    hide After, AckOrder, AfterAcks, TestBit, GoodSize;
    assert [1, 65][..2] == [1, 65];
    AfterAcksEffect(s.out, 65, peer.ackBits, now);
  }

  /** A jump of 64 makes the peer acknowledge packet 64, which never came, and the
      sender gives it up for delivered. */
  lemma LosesPacket64(size: nat, maxInFlight: nat, p: SentPacket, now: Instant)
    returns (run: seq<Link>, events: seq<Event>)
    requires GoodSize(size) && p.nackCount == 0
    ensures IsRun(size, maxInFlight, run, events)
    ensures var s := run[|events|]; 64 in s.acked && 64 !in s.arrivals && 64 !in s.out.sent
  {
    var s := Before(p, 68);
    FalseReport(size, s, now);
    var s' := Reported(size, s, 2, now);
    hide After, AfterAcks, GoodSize;
    run := seq(69, i requires 0 <= i => Before(p, i)) + [s'];
    events := seq(68, i requires 0 <= i => EventAt(p, i)) + [Report(2, now)];
    assert Step(size, maxInFlight, s, Report(2, now), s');
    forall i | 0 <= i < |events|
      ensures Step(size, maxInFlight, run[i], events[i], run[i + 1])
    {
      hide *;
      if i < 68 { BeforeSteps(size, maxInFlight, p, i); }
    }
  }

  /** Packet 1 is tracked and lost; 65536 packets on, one of the same 16-bit number
      is sent and comes. The windows are exact throughout. */
  function Cycle(p: SentPacket, i: nat): Link {
    if i <= 1 then NEW_LINK.(next := i)
    else Link(if i <= 65538 then i else 65538, Tracked(NewOutbound(), 1, p), CycleArrivals(i), map[1 := 1], {})
  }

  function CycleArrivals(i: nat): seq<int> {
    if i <= 65538 then []
    else if i == 65539 then [30000]
    else if i == 65540 then [30000, 60000]
    else [30000, 60000, 65537]
  }

  function CycleEvent(p: SentPacket, i: nat): Event {
    if i == 1 then Track(p)
    else if i <= 65537 then SendUntracked
    else Arrive(if i == 65538 then 30000 else if i == 65539 then 60000 else 65537)
  }

  lemma CycleSteps(size: nat, maxInFlight: nat, p: SentPacket, i: nat)
    requires size > 0 && p.nackCount == 0 && i < 65541
    ensures Step(size, maxInFlight, Cycle(p, i), CycleEvent(p, i), Cycle(p, i + 1))
  {
    if i == 1 && maxInFlight == 0 { assert EvictsWorst(NewOutbound(), NewOutbound()); }
    hide NewOutbound, Tracked, EvictsWorst;
  }

  lemma CycleWindow(size: nat)
    requires GoodSize(size)
    ensures var got := [30000, 60000, 65537];
      InReachOf(got) && NeverOvershifts(size, got) && After(size, got).remoteSequence == 1
  {
    hide After, Built;
    BuiltNone(size);
    Build(size, [], 0, 30000);
    assert [] + [30000] == [30000];
    Build(size, [30000], 30000, 60000);
    assert [30000] + [60000] == [30000, 60000];
    Build(size, [30000, 60000], 60000, 65537);
    assert [30000, 60000] + [65537] == [30000, 60000, 65537];
    BuiltIs(size, [30000, 60000, 65537], 65537);
    RunTracks(size, [30000, 60000, 65537]);
  }

  lemma CycleReport(size: nat, s: Link, now: Instant)
    requires GoodSize(size) && s.arrivals == [30000, 60000, 65537] && GoodRing(s.out)
    requires s.out.sent.Keys <= s.numbers.Keys && 1 in s.out.sent && s.numbers[1] == 1
    ensures 1 in Reported(size, s, 3, now).acked
  {
    var got := [30000, 60000, 65537];
    CycleWindow(size);
    var peer := After(size, got);
    NamedIff(1, peer.ackBits, ACK_BITS_WINDOW, 1);
    hide After, AckOrder, AfterAcks, TestBit, GoodSize;
    assert got[..3] == got;
    AfterAcksEffect(s.out, 1, peer.ackBits, now);
  }

  /** The later packet's acknowledgement is taken for the lost one's. */
  lemma LosesStalePacket(size: nat, maxInFlight: nat, p: SentPacket, now: Instant)
    returns (run: seq<Link>, events: seq<Event>)
    requires GoodSize(size) && p.nackCount == 0
    ensures IsRun(size, maxInFlight, run, events)
    ensures forall i :: 0 <= i < |events| ==> WindowIsExactFor(size, run[i], events[i])
    ensures var s := run[|events|]; 1 in s.acked && 1 !in s.arrivals
  {
    var s := Cycle(p, 65541);
    CycleWindow(size);
    CycleReport(size, s, now);
    var s' := Reported(size, s, 3, now);
    hide After, AfterAcks, GoodSize;
    run := seq(65542, i requires 0 <= i => Cycle(p, i)) + [s'];
    events := seq(65541, i requires 0 <= i => CycleEvent(p, i)) + [Report(3, now)];
    assert Step(size, maxInFlight, s, Report(3, now), s');
    assert WindowIsExactFor(size, s, Report(3, now)) by { assert s.arrivals[..3] == [30000, 60000, 65537]; }
    forall i | 0 <= i < |events|
      ensures Step(size, maxInFlight, run[i], events[i], run[i + 1])
      ensures WindowIsExactFor(size, run[i], events[i])
    {
      hide *;
      if i < 65541 {
        CycleSteps(size, maxInFlight, p, i);
        NoReport(size, p, i);
      }
    }
  }

  lemma NoReport(size: nat, p: SentPacket, i: nat)
    requires size > 0
    ensures WindowIsExactFor(size, Cycle(p, i), CycleEvent(p, i))
  {
  }
}
