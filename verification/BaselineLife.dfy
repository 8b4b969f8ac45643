/** How long a stored baseline stays: by the list of what was stored, and over runs
    of the protocol by the deliveries. */
module BaselineLife {
  import opened Wrappers
  import opened BitIo
  import opened Codec
  import opened DeltaCodec
  import opened DeltaBaselines
  import opened DeltaProtocol
  import S = SequenceNumbers

  datatype Push = Push(number: u16, state: Snapshot, now: Instant)

  function AfterPushes(maxSnapshots: nat, timeout: nat, pushes: seq<Push>): seq<Stored> {
    if pushes == [] then []
    else
      var before, p := AfterPushes(maxSnapshots, timeout, pushes[..|pushes| - 1]), pushes[|pushes| - 1];
      Pushed(before, maxSnapshots, timeout, p.number, p.state, p.now)
  }

  /** The clock does not run back. */
  ghost predicate Ordered(pushes: seq<Push>) { forall i, j :: 0 <= i < j < |pushes| ==> pushes[i].now <= pushes[j].now }

  /** Fewer pushes follow than are kept, of which there is always one, and at the last
      of them it was no older than the timeout. */
  ghost predicate StillHeld(maxSnapshots: nat, timeout: nat, pushes: seq<Push>, i: nat)
    requires i < |pushes|
  {
    && |pushes| - 1 - i < (if maxSnapshots == 0 then 1 else maxSnapshots)
    && pushes[|pushes| - 1].now - pushes[i].now <= timeout
  }

  function EntryOf(p: Push): Stored { (p.number, p.state, p.now) }

  /** The list holds the pushes from number `cut` on. */
  ghost predicate HoldsFrom(held: seq<Stored>, pushes: seq<Push>, cut: nat) {
    && cut <= |pushes| && |held| == |pushes| - cut
    && forall i :: cut <= i < |pushes| ==> held[i - cut] == EntryOf(pushes[i])
  }

  /** Dropping takes just the entries past the timeout, as the clock is ordered. */
  lemma {:induction false} DropsExpired(held: seq<Stored>, pushes: seq<Push>, cut: nat, timeout: nat, now: Instant)
    returns (more: nat)
    requires HoldsFrom(held, pushes, cut) && Ordered(pushes) && forall i :: 0 <= i < |pushes| ==> pushes[i].now <= now
    ensures cut <= more && HoldsFrom(DropExpired(held, timeout, now), pushes, more)
    ensures forall i :: cut <= i < |pushes| ==> (i >= more <==> now - pushes[i].now <= timeout)
    decreases |held|
  {
    if held != [] && Elapsed(now, held[0].2) > timeout {
      assert held[0] == EntryOf(pushes[cut]);
      more := DropsExpired(held[1..], pushes, cut + 1, timeout, now);
    } else {
      more := cut;
      if held != [] { assert held[0] == EntryOf(pushes[cut]); }
    }
  }

  /** A stored baseline is held after a list of pushes if and only if it is one of
      the last ones kept and was not past the timeout at the last push. */
  lemma {:induction false} HeldIff(maxSnapshots: nat, timeout: nat, pushes: seq<Push>) returns (cut: nat)
    requires Ordered(pushes)
    ensures HoldsFrom(AfterPushes(maxSnapshots, timeout, pushes), pushes, cut)
    ensures forall i :: 0 <= i < |pushes| ==> (i >= cut <==> StillHeld(maxSnapshots, timeout, pushes, i))
  {
    if pushes == [] {
      cut := 0;
    } else {
      var front, p := pushes[..|pushes| - 1], pushes[|pushes| - 1];
      var before := HeldIff(maxSnapshots, timeout, front);
      cut := PushKeeps(maxSnapshots, timeout, front, p, before);
      assert pushes == front + [p];
    }
  }

  lemma OneMoreHeld(live: seq<Stored>, front: seq<Push>, more: nat, p: Push)
    requires HoldsFrom(live, front, more)
    ensures HoldsFrom(live + [EntryOf(p)], front + [p], more)
    ensures live != [] ==> HoldsFrom(live[1..] + [EntryOf(p)], front + [p], more + 1)
  {
    hide EntryOf;
  }

  /** Which of the earlier pushes stay, in numbers: `n` of them, held from `before` on,
      in time from `more` on. */
  lemma HeldNext(n: nat, most: nat, before: nat, more: nat, i: nat, older: bool, expired: bool)
    requires i < n && before <= more <= n && (before < n ==> n - 1 - before < if most == 0 then 1 else most)
    requires i >= before <==> n - 1 - i < (if most == 0 then 1 else most) && !older
    requires (older ==> expired) && (i >= before ==> (i >= more <==> !expired))
    ensures var cut := if n - more >= most && n - more > 0 then more + 1 else more;
      i >= cut <==> n - i < (if most == 0 then 1 else most) && !expired
  {
  }

  lemma HeldAt(maxSnapshots: nat, timeout: nat, front: seq<Push>, p: Push, before: nat, more: nat, i: nat)
    requires i < |front| && front[|front| - 1].now <= p.now && before <= more <= |front|
    requires before < |front| ==> StillHeld(maxSnapshots, timeout, front, before)
    requires i >= before <==> StillHeld(maxSnapshots, timeout, front, i)
    requires i >= before ==> (i >= more <==> p.now - front[i].now <= timeout)
    ensures var left := |front| - more;
      i >= (if left >= maxSnapshots && left > 0 then more + 1 else more)
      <==> StillHeld(maxSnapshots, timeout, front + [p], i)
  {
    var n := |front|;
    HeldNext(n, maxSnapshots, before, more, i, front[n - 1].now - front[i].now > timeout,
             p.now - front[i].now > timeout);
  }

  lemma PushKeeps(maxSnapshots: nat, timeout: nat, front: seq<Push>, p: Push, before: nat) returns (cut: nat)
    requires Ordered(front + [p])
    requires HoldsFrom(AfterPushes(maxSnapshots, timeout, front), front, before)
    requires forall i :: 0 <= i < |front| ==> (i >= before <==> StillHeld(maxSnapshots, timeout, front, i))
    ensures HoldsFrom(AfterPushes(maxSnapshots, timeout, front + [p]), front + [p], cut)
    ensures forall i :: 0 <= i < |front| + 1 ==> (i >= cut <==> StillHeld(maxSnapshots, timeout, front + [p], i))
  {
    hide *;
    var pushes, held, n := front + [p], AfterPushes(maxSnapshots, timeout, front), |front|;
    OrderedFront(front, p);
    var more := DropsExpired(held, front, before, timeout, p.now);
    var live := DropExpired(held, timeout, p.now);
    OneMoreHeld(live, front, more, p);
    HeldLengths(live, front, more);
    cut := if |live| >= maxSnapshots && live != [] then more + 1 else more;
    AfterOneMore(maxSnapshots, timeout, front, p);
    LastIsHeld(maxSnapshots, timeout, front, p);
    forall i | 0 <= i < n
      ensures i >= cut <==> StillHeld(maxSnapshots, timeout, pushes, i)
    {
      HeldAt(maxSnapshots, timeout, front, p, before, more, i);
    }
  }

  lemma LastIsHeld(maxSnapshots: nat, timeout: nat, front: seq<Push>, p: Push)
    ensures StillHeld(maxSnapshots, timeout, front + [p], |front|)
  {
  }

  lemma OrderedFront(front: seq<Push>, p: Push)
    requires Ordered(front + [p])
    ensures Ordered(front) && forall i :: 0 <= i < |front| ==> front[i].now <= p.now
  {
    var pushes := front + [p];
    forall i, j | 0 <= i < j < |front| ensures front[i].now <= front[j].now { assert pushes[i].now <= pushes[j].now; }
    forall i | 0 <= i < |front| ensures front[i].now <= p.now { assert pushes[i].now <= pushes[|front|].now; }
  }

  lemma AfterOneMore(maxSnapshots: nat, timeout: nat, front: seq<Push>, p: Push)
    ensures var live := DropExpired(AfterPushes(maxSnapshots, timeout, front), timeout, p.now);
      AfterPushes(maxSnapshots, timeout, front + [p])
      == (if |live| >= maxSnapshots && live != [] then live[1..] else live) + [EntryOf(p)]
  {
    assert (front + [p])[..|front|] == front;
    hide DropExpired;
  }

  lemma HeldLengths(live: seq<Stored>, front: seq<Push>, more: nat)
    requires HoldsFrom(live, front, more)
    ensures more <= |front| && |live| == |front| - more
  {
  }

  // ---------- over runs of the protocol ----------

  /** The deliveries that decode, each of which stores its state. */
  ghost predicate Stores(c: Config, l: Link, e: Event)
    requires IsLayout(c.fields)
  {
    && e.Deliver? && e.n in l.data && AllStates(c.fields, l.snapshots)
    && Decoded(c.fields, l.data[e.n], l.snapshots).Success?
  }

  ghost function PushOf(c: Config, l: Link, e: Event): Push
    requires IsLayout(c.fields) && Stores(c, l, e)
  {
    Push(S.Wrap(e.n), Decoded(c.fields, l.data[e.n], l.snapshots).value, e.now)
  }

  ghost function Pushes(c: Config, run: seq<Link>, events: seq<Event>, k: nat): seq<Push>
    requires IsLayout(c.fields) && k <= |events| < |run|
  {
    if k == 0 then []
    else
      var l, e := run[k - 1], events[k - 1];
      Pushes(c, run, events, k - 1)
        + if Stores(c, l, e) then [PushOf(c, l, e)] else []
  }

  function NumberOf(e: Event): nat { if e.Ack? then 0 else e.n }

  /** The unbounded numbers under which they were sent. */
  ghost function PushedNos(c: Config, run: seq<Link>, events: seq<Event>, k: nat): seq<nat>
    requires IsLayout(c.fields) && k <= |events| < |run|
  {
    if k == 0 then []
    else
      var l, e := run[k - 1], events[k - 1];
      PushedNos(c, run, events, k - 1) + if Stores(c, l, e) then [NumberOf(e)] else []
  }

  lemma {:induction false} AsMany(c: Config, run: seq<Link>, events: seq<Event>, k: nat)
    requires IsLayout(c.fields) && k <= |events| < |run|
    ensures |Pushes(c, run, events, k)| == |PushedNos(c, run, events, k)|
  {
    hide Stores;
    if k > 0 { AsMany(c, run, events, k - 1); }
  }

  lemma {:induction false} StoredArePushed(c: Config, run: seq<Link>, events: seq<Event>, k: nat)
    requires IsLayout(c.fields) && AreSteps(c, run, events) && k <= |events|
    ensures run[k].snapshots == AfterPushes(c.maxSnapshots, c.timeout, Pushes(c, run, events, k))
    ensures run[k].snapshotNos == LastOf(PushedNos(c, run, events, k), |run[k].snapshots|)
    ensures |run[k].snapshots| <= |PushedNos(c, run, events, k)|
  {
    hide Step, Stores, Pushed, PushOf, NumberOf;
    if k > 0 {
      StoredArePushed(c, run, events, k - 1);
      var l, e, l' := run[k - 1], events[k - 1], run[k];
      assert Step(c, l, e, l');
      StepStores(c, l, e, l');
      if Stores(c, l, e) {
        var p := PushOf(c, l, e);
        var before := Pushes(c, run, events, k - 1);
        assert (before + [p])[..|before|] == before;
        PushedLength(l.snapshots, c.maxSnapshots, c.timeout, p);
        LastOfNext(PushedNos(c, run, events, k - 1), |l.snapshots|, NumberOf(e), |l'.snapshots|);
      } else {
        assert Pushes(c, run, events, k - 1) + [] == Pushes(c, run, events, k - 1);
        assert PushedNos(c, run, events, k - 1) + [] == PushedNos(c, run, events, k - 1);
      }
    }
  }

  lemma PushedLength(snapshots: seq<Stored>, maxSnapshots: nat, timeout: nat, p: Push)
    ensures 1 <= |Pushed(snapshots, maxSnapshots, timeout, p.number, p.state, p.now)| <= |snapshots| + 1
  {
  }

  lemma LastOfNext(nos: seq<nat>, k: nat, n: nat, m: nat)
    requires k <= |nos| && m <= k + 1
    ensures LastOf(LastOf(nos, k) + [n], m) == LastOf(nos + [n], m)
  {
  }

  lemma StepStores(c: Config, l: Link, e: Event, l': Link)
    requires IsLayout(c.fields) && Step(c, l, e, l')
    ensures Stores(c, l, e) ==>
      var p := PushOf(c, l, e);
      && l'.snapshots == Pushed(l.snapshots, c.maxSnapshots, c.timeout, p.number, p.state, p.now)
      && l'.snapshotNos == LastOf(l.snapshotNos + [NumberOf(e)], |l'.snapshots|)
    ensures !Stores(c, l, e) ==> l'.snapshots == l.snapshots && l'.snapshotNos == l.snapshotNos
  {
    hide Decoded, Pushed, Payload, Padded, S.Wrap, FitsLayout;
  }

  /** One of the stored states of number `b` is still held. */
  ghost predicate SomeHeld(c: Config, pushes: seq<Push>, nos: seq<nat>, b: nat)
    requires |pushes| == |nos|
  {
    exists m :: 0 <= m < |nos| && nos[m] == b && StillHeld(c.maxSnapshots, c.timeout, pushes, m)
  }

  /** On a clock that does not run back a delivery decodes to its state if and only if
      it was sent whole, or its baseline was stored within the timeout of the last
      storing and with fewer stored since than are kept. Otherwise it is refused. */
  lemma DecodesIffBaseHeld(c: Config, run: seq<Link>, events: seq<Event>, k: nat)
    requires IsLayout(c.fields) && IsRun(c, run, events) && k < |events| && events[k].Deliver?
    requires Ordered(Pushes(c, run, events, k))
    ensures |Pushes(c, run, events, k)| == |PushedNos(c, run, events, k)|
    ensures var l, n := run[k], events[k].n;
      && n in l.data && n in l.history && n in l.baseOf && AllStates(c.fields, l.snapshots)
      && Decoded(c.fields, l.data[n], l.snapshots)
         == if l.baseOf[n].Some?
               && !SomeHeld(c, Pushes(c, run, events, k), PushedNos(c, run, events, k), l.baseOf[n].value)
            then Failure(InvalidData) else Success(l.history[n])
  {
    var pushes, nos, l := Pushes(c, run, events, k), PushedNos(c, run, events, k), run[k];
    hide Step, Near, Decoded, Stores, Pushes, PushedNos;
    AsMany(c, run, events, k);
    DecodesWhatWasEncoded(c, run, events, k);
    StoredArePushed(c, run, events, k);
    var cut := HeldIff(c.maxSnapshots, c.timeout, pushes);
    HeldLengths(l.snapshots, pushes, cut);
    assert l.snapshotNos == nos[cut..];
    hide HoldsFrom, AfterPushes, StillHeld, Ordered;
    if l.baseOf[events[k].n].Some? { InSuffix(nos, cut, l.baseOf[events[k].n].value); }
  }

  lemma InSuffix(nos: seq<nat>, cut: nat, b: nat)
    requires cut <= |nos|
    ensures b in nos[cut..] <==> exists m :: cut <= m < |nos| && nos[m] == b
  {
    if b in nos[cut..] {
      var i :| 0 <= i < |nos[cut..]| && nos[cut..][i] == b;
      assert nos[cut + i] == b;
    }
    if exists m :: cut <= m < |nos| && nos[m] == b {
      var m :| cut <= m < |nos| && nos[m] == b;
      assert nos[cut..][m - cut] == b;
    }
  }
}
