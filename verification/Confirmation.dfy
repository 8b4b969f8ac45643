/** Which acknowledgements make a state the baseline, told from the states encoded. */
module Confirmation {
  import opened Wrappers
  import opened Codec
  import opened DeltaCodec
  import opened DeltaBaselines
  import opened DeltaProtocol
  import S = SequenceNumbers

  /** The numbers encoded after `n`. */
  function Later(history: map<nat, Snapshot>, n: nat): set<nat> { set m | m in history && m > n }

  predicate Newer(confirmed: Option<nat>, n: nat) { confirmed.Some? ==> n > confirmed.value }

  /** How many states wait for an acknowledgement at most. */
  function Most(c: Config): nat { if c.maxPending == 0 then 1 else c.maxPending }

  /** What waits is the latest, and what does not, though it is newer than the
      confirmed one, has been pushed out. */
  ghost predicate WaitsRightly(c: Config, l: Link) {
    && |l.pendingNos| <= Most(c)
    && (forall i, m :: 0 <= i < |l.pendingNos| && m in l.history && m > l.pendingNos[i] ==> m in l.pendingNos)
    && forall n :: n in l.history && n !in l.pendingNos && Newer(l.confirmedNo, n) ==> |Later(l.history, n)| >= Most(c)
  }

  lemma {:induction false} SubsetSize<T>(a: set<T>, b: set<T>)
    requires a <= b
    ensures |a| <= |b|
  {
    if a != {} {
      var x :| x in a;
      SubsetSize(a - {x}, b - {x});
    }
  }

  ghost function SetOf(nos: seq<nat>): set<nat> { set n | n in nos }

  lemma {:induction false} SizeOfSet(nos: seq<nat>)
    requires forall i, j :: 0 <= i < j < |nos| ==> nos[i] < nos[j]
    ensures |SetOf(nos)| == |nos|
  {
    if nos != [] {
      var front, last := nos[..|nos| - 1], nos[|nos| - 1];
      SizeOfSet(front);
      assert SetOf(nos) == SetOf(front) + {last};
      assert last !in SetOf(front);
    } else {
      assert SetOf(nos) == {};
    }
  }

  /** Number `n` waits if and only if it is newer than the confirmed one and fewer have
      been encoded since than may wait. */
  lemma WaitsIff(c: Config, l: Link, n: nat)
    requires GoodSender(l) && InOrder(l) && WaitsRightly(c, l) && n in l.history
    ensures n in l.pendingNos <==> Newer(l.confirmedNo, n) && |Later(l.history, n)| < Most(c)
  {
    if n in l.pendingNos {
      SizeOfSet(l.pendingNos);
      assert Later(l.history, n) <= SetOf(l.pendingNos) - {n};
      SubsetSize(Later(l.history, n), SetOf(l.pendingNos) - {n});
    }
  }

  lemma MoreLater(history: map<nat, Snapshot>, n: nat, next: nat, state: Snapshot)
    requires (forall m :: m in history ==> m < next) && n in history
    ensures Later(history[next := state], n) == Later(history, n) + {next} && next !in Later(history, n)
  {
  }

  lemma PushedOut(nos: seq<nat>, history: map<nat, Snapshot>, next: nat, state: Snapshot)
    requires nos != [] && forall i, j :: 0 <= i < j < |nos| ==> nos[i] < nos[j]
    requires forall i :: 0 <= i < |nos| ==> nos[i] in history
    requires forall m :: m in history ==> m < next
    ensures |Later(history[next := state], nos[0])| >= |nos|
  {
    var rest := nos[1..];
    SizeOfSet(rest);
    assert next !in SetOf(rest);
    SubsetSize(SetOf(rest) + {next}, Later(history[next := state], nos[0]));
  }

  lemma OnlyFirstGoes(nos: seq<nat>, m: nat)
    requires m in nos
    ensures m in nos[1..] || m == nos[0]
  {
    var i :| 0 <= i < |nos| && nos[i] == m;
    if i > 0 { assert nos[1..][i - 1] == m; }
  }

  lemma EncodeWaits(c: Config, l: Link, n: nat, state: Snapshot, bytes: Bytes, l': Link)
    requires IsLayout(c.fields) && GoodSender(l) && InOrder(l) && WaitsRightly(c, l)
    requires Encodes(c, l, n, state, bytes, l')
    ensures WaitsRightly(c, l')
  {
    var nos, full := l.pendingNos, |l.pendingNos| >= c.maxPending && l.pendingNos != [];
    assert Matches(l.history, l.tracker.pending, nos);
    if full { PushedOut(nos, l.history, n, state); }
    hide Payload, Padded, FitsLayout, GoodTracker, Remembered, S.Wrap, Entry, Later;
    assert l'.history == l.history[n := state] && l'.confirmedNo == l.confirmedNo;
    assert l'.pendingNos == (if full then nos[1..] else nos) + [n];
    hide Encodes, GoodSender, Matches;
    forall i, m | 0 <= i < |l'.pendingNos| && m in l'.history && m > l'.pendingNos[i]
      ensures m in l'.pendingNos
    {
      if m != n {
        assert m in nos;
        if full { assert l'.pendingNos[i] > nos[0]; assert m in nos[1..]; }
        assert m in l'.pendingNos;
      } else {
        assert l'.pendingNos[|l'.pendingNos| - 1] == n;
      }
    }
    forall m | m in l'.history && m !in l'.pendingNos && Newer(l'.confirmedNo, m)
      ensures |Later(l'.history, m)| >= Most(c)
    {
      assert l'.pendingNos[|l'.pendingNos| - 1] == n;
      MoreLater(l.history, m, n, state);
      if m in nos { OnlyFirstGoes(nos, m); }
    }
  }

  lemma AckWaits(c: Config, l: Link, n: nat, l': Link)
    requires GoodSender(l) && InOrder(l) && WaitsRightly(c, l) && Acks(l, n, l') && AcksNear(l, Ack(n))
    ensures WaitsRightly(c, l')
    ensures l'.history == l.history && l'.confirmedNo == if n in l.pendingNos then Some(n) else l.confirmedNo
  {
    hide *;
    AckEffect(l, n, l');
    PositionIs(l.pendingNos, n);
    var p := Position(l.pendingNos, n);
    if p < |l.pendingNos| {
      RestWaits(c, l, p, l');
    } else {
      NotThere(l.pendingNos, n);
    }
  }

  lemma NotThere(nos: seq<nat>, n: nat)
    requires forall i :: 0 <= i < |nos| ==> nos[i] != n
    ensures n !in nos
  {
  }

  lemma RestWaits(c: Config, l: Link, p: nat, l': Link)
    requires InOrder(l) && WaitsRightly(c, l) && p < |l.pendingNos| && l'.history == l.history
    requires l'.pendingNos == l.pendingNos[p + 1..] && l'.confirmedNo == Some(l.pendingNos[p])
    ensures WaitsRightly(c, l')
  {
    var nos, n := l.pendingNos, l.pendingNos[p];
    hide Later;
    forall m: nat
      ensures m in l'.pendingNos <==> m in nos && m > n
    {
      InRest(nos, p, m);
    }
  }

  lemma InRest(nos: seq<nat>, p: nat, m: nat)
    requires p < |nos| && forall i, j :: 0 <= i < j < |nos| ==> nos[i] < nos[j]
    ensures m in nos[p + 1..] <==> m in nos && m > nos[p]
  {
    if m in nos && m > nos[p] {
      var i :| 0 <= i < |nos| && nos[i] == m;
      assert nos[p + 1..][i - p - 1] == m;
    }
  }

  lemma {:induction false} RunWaits(c: Config, run: seq<Link>, events: seq<Event>, k: nat)
    requires IsLayout(c.fields) && IsRun(c, run, events) && k <= |events|
    requires forall i :: 0 <= i < |events| ==> AcksNear(run[i], events[i])
    ensures Inv(c, run[k]) && InOrder(run[k]) && WaitsRightly(c, run[k])
  {
    hide Inv, Step, Near, AcksNear, InOrder, WaitsRightly;
    RunKeeps(c, run, events, k);
    RunKeepsOrder(c, run, events, k);
    if k == 0 {
      NobodyWaits(c);
    } else {
      RunWaits(c, run, events, k - 1);
      assert Step(c, run[k - 1], events[k - 1], run[k]);
      StepWaits(c, run[k - 1], events[k - 1], run[k]);
    }
  }

  lemma NobodyWaits(c: Config)
    ensures WaitsRightly(c, NEW_LINK)
  {
  }

  lemma StepWaits(c: Config, l: Link, e: Event, l': Link)
    requires IsLayout(c.fields) && Inv(c, l) && InOrder(l) && WaitsRightly(c, l) && Step(c, l, e, l') && AcksNear(l, e)
    ensures WaitsRightly(c, l')
  {
    hide InOrder, GoodSender, GoodHistory, GoodReceiver, GoodPayload, Encodes, Acks, AcksNear, Decoded, Pushed;
    match e
    case Encode(n, state, bytes) =>
      hide WaitsRightly;
      EncodeWaits(c, l, n, state, bytes, l');
    case Deliver(n, now) =>
    case Ack(n) =>
      hide WaitsRightly;
      AckWaits(c, l, n, l');
  }

  /** An acknowledgement makes its state the baseline if and only if the state is newer
      than the one that is, and fewer have been encoded since than may wait. Otherwise
      the baseline stays. */
  lemma ConfirmsIff(c: Config, run: seq<Link>, events: seq<Event>, i: nat)
    requires IsLayout(c.fields) && IsRun(c, run, events) && i < |events| && events[i].Ack?
    requires forall k :: 0 <= k < |events| ==> AcksNear(run[k], events[k])
    ensures var l, n := run[i], events[i].n;
      var since := |set m | m in l.history && m > n|;
      run[i + 1].confirmedNo
      == if Newer(l.confirmedNo, n) && since < (if c.maxPending == 0 then 1 else c.maxPending)
         then Some(n) else l.confirmedNo
  {
    RunWaits(c, run, events, i);
    var l, n := run[i], events[i].n;
    assert Step(c, l, events[i], run[i + 1]) && AcksNear(l, events[i]);
    assert n in l.history by { hide GoodSender, GoodPayload; }
    hide IsRun, InOrder, WaitsRightly, GoodSender, GoodHistory, GoodReceiver, GoodPayload, AcksNear;
    AckWaits(c, l, n, run[i + 1]);
    WaitsIff(c, l, n);
    assert Later(l.history, n) == set m | m in l.history && m > n;
  }
}
