/** Deltas against a baseline whose 16-bit number has come round: when a delivery
    still decodes rightly, and a run on which one does not. */
module StaleBaselines {
  import opened Wrappers
  import opened BitIo
  import opened Codec
  import opened DeltaCodec
  import opened DeltaBaselines
  import opened DeltaProtocol
  import S = SequenceNumbers

  /** The state found under the baseline's wire number will do: it is as the current
      state wherever the baseline was. */
  predicate WillDo(found: Snapshot, base: Snapshot, current: Snapshot)
    requires |found| == |base| == |current|
  {
    forall i :: 0 <= i < |current| && base[i] == current[i] ==> found[i] == current[i]
  }

  lemma AppliesRightlyIff(fields: seq<Schema>, found: Snapshot, base: Snapshot, current: Snapshot)
    requires IsState(fields, found) && IsState(fields, base) && IsState(fields, current)
    ensures Applied(found, Diff(current, base)) == current <==> WillDo(found, base, current)
  {
    hide HasShape;
    var s := Applied(found, Diff(current, base));
    forall i | 0 <= i < |current|
      ensures s[i] == if base[i] == current[i] then found[i] else current[i]
    {
    }
    if s == current {
      forall i | 0 <= i < |current| && base[i] == current[i]
        ensures found[i] == current[i]
      {
        assert s[i] == current[i];
      }
    }
  }

  /** The last stored number of that wire number, if any. */
  function LastUnder(nos: seq<nat>, number: u16): Option<nat> {
    if nos == [] then None
    else if S.Wrap(nos[|nos| - 1]) == number then Some(nos[|nos| - 1])
    else LastUnder(nos[..|nos| - 1], number)
  }

  lemma {:induction false} LatestIsLastUnder(history: map<nat, Snapshot>, snapshots: seq<Stored>, nos: seq<nat>,
                                            number: u16)
    requires StandFor(history, snapshots, nos)
    ensures var m := LastUnder(nos, number);
      && (m.Some? ==> m.value in history)
      && Latest(snapshots, number) == if m.Some? then Some(history[m.value]) else None
  {
    hide S.Wrap;
    if nos != [] {
      var k := |nos| - 1;
      assert snapshots[..k] == snapshots[..|snapshots| - 1];
      LatestIsLastUnder(history, snapshots[..k], nos[..k], number);
    }
  }

  /** At any distance: with no baseline what arrives decodes rightly; with one it is
      an error if and only if nothing is stored under its wire number, and otherwise
      right if and only if what was stored there last will do. */
  ghost predicate DecodesJustSo(c: Config, l: Link, n: nat)
    requires IsLayout(c.fields) && Inv(c, l) && n in l.data && AllStates(c.fields, l.snapshots)
  {
    assert GoodPayload(c, l, n);
    var r := Decoded(c.fields, l.data[n], l.snapshots);
    match l.baseOf[n]
    case None => r == Success(l.history[n])
    case Some(b) =>
      match LastUnder(l.snapshotNos, S.Wrap(b))
      case None => r == Failure(InvalidData)
      case Some(m) =>
        && r.Success? && m in l.history && |l.history[m]| == |l.history[b]| == |l.history[n]|
        && (r == Success(l.history[n]) <==> WillDo(l.history[m], l.history[b], l.history[n]))
  }

  lemma DeliveryDecodesIff(c: Config, l: Link, n: nat)
    requires IsLayout(c.fields) && Inv(c, l) && n in l.data
    ensures AllStates(c.fields, l.snapshots) && DecodesJustSo(c, l, n)
  {
    assert GoodPayload(c, l, n);
    StoredAreStates(c, l);
    hide AllBits, Decoded, Payload, HasShape, Fits;
    match l.baseOf[n]
    case None => PayloadDecodes(c.fields, None, l.history[n], l.data[n], l.snapshots);
    case Some(b) =>
      assert FitsLayout(c.fields, l.history[b]);
      LatestIsLastUnder(l.history, l.snapshots, l.snapshotNos, S.Wrap(b));
      var o := Payload(c.fields, Some(Entry(l.history, b)), l.history[n]);
      DeltaDecodes(c.fields, S.Wrap(b), l.history[b], l.history[n], PadOf(o.bits), l.data[n], l.snapshots);
      var m := LastUnder(l.snapshotNos, S.Wrap(b));
      if m.Some? { AppliesRightlyIff(c.fields, l.history[m.value], l.history[b], l.history[n]); }
  }

  /** So on any run, whatever the distance of the numbers that meet in the last
      delivery. */
  lemma DecodesIff(c: Config, run: seq<Link>, events: seq<Event>, k: nat)
    requires IsLayout(c.fields) && AreSteps(c, run, events) && k < |events| && events[k].Deliver?
    requires forall i :: 0 <= i < k ==> Near(run[i], events[i])
    ensures Inv(c, run[k]) && events[k].n in run[k].data && AllStates(c.fields, run[k].snapshots)
    ensures DecodesJustSo(c, run[k], events[k].n)
  {
    assert Step(c, run[k], events[k], run[k + 1]);
    assert events[k].n in run[k].data by { hide Decoded, Pushed; }
    hide Inv, Near, Step;
    RunKeeps(c, run[..k + 1], events[..k], k);
    DeliveryDecodesIff(c, run[k], events[k].n);
  }

  // ---------- a run that comes to it ----------

  /** The number 1 has come round: another state is sent under 65537. */
  function SentAgain(c: Config, l: Link, other: Snapshot, bytes: Bytes): Link {
    var nos := if |l.pendingNos| >= c.maxPending && l.pendingNos != [] then l.pendingNos[1..] else l.pendingNos;
    l.(tracker := Remembered(l.tracker, c.maxPending, S.Wrap(65537), other),
       history := l.history[65537 := other], data := l.data[65537 := bytes],
       baseOf := l.baseOf[65537 := l.confirmedNo], pendingNos := nos + [65537])
  }

  function StoredAgain(c: Config, l: Link, other: Snapshot): Link {
    var kept := Pushed(l.snapshots, c.maxSnapshots, c.timeout, S.Wrap(65537), other, 0);
    l.(snapshots := kept, snapshotNos := LastOf(l.snapshotNos + [65537], |kept|), stored := l.stored + {65537})
  }

  /** The number 1 stands for a baseline known to both ends. */
  function FromOne(fields: seq<Schema>, state: Snapshot, current: Snapshot): Output
    requires IsLayout(fields) && IsState(fields, state) && IsState(fields, current)
  {
    Payload(fields, Some((S.Wrap(1), state)), current)
  }

  lemma SendsAgain(c: Config, l: Link, state: Snapshot, other: Snapshot, bytes: Bytes)
    requires IsLayout(c.fields) && FitsLayout(c.fields, state) && FitsLayout(c.fields, other)
    requires l.tracker.confirmed == Some((S.Wrap(1), state)) && GoodTracker(c.fields, l.tracker)
    requires (forall m :: m in l.history ==> m < 65537) && Padded(FromOne(c.fields, state, other).bits, bytes)
    ensures Step(c, l, Encode(65537, other, bytes), SentAgain(c, l, other, bytes))
  {
    FittingDifference(c.fields, other, state);
    hide Padded, FitsLayout, S.Wrap, GoodTracker, Remembered;
  }

  /** What is sent against number 1 decodes from what is stored under it last. */
  lemma DecodesFromOne(fields: seq<Schema>, state: Snapshot, current: Snapshot, found: Snapshot, bytes: Bytes,
                       snapshots: seq<Stored>)
    requires IsLayout(fields) && AllStates(fields, snapshots)
    requires FitsLayout(fields, state) && FitsLayout(fields, current)
    requires Latest(snapshots, S.Wrap(1)) == Some(found) && Padded(FromOne(fields, state, current).bits, bytes)
    ensures |found| == |current| && Decoded(fields, bytes, snapshots) == Success(Applied(found, Diff(current, state)))
  {
    FittingDifference(fields, current, state);
    LatestIsState(fields, snapshots, S.Wrap(1));
    hide FitsLayout, EmitDelta, AllBits, Decoded, Latest, HasShape, AllStates, IsLayout, Diff, Applied;
    DeltaDecodes(fields, S.Wrap(1), state, current, PadOf(FromOne(fields, state, current).bits), bytes, snapshots);
  }

  lemma StoresAgain(c: Config, l: Link, state: Snapshot, other: Snapshot)
    requires IsLayout(c.fields) && AllStates(c.fields, l.snapshots) && 65537 in l.data
    requires Decoded(c.fields, l.data[65537], l.snapshots) == Success(other)
    ensures Step(c, l, Deliver(65537, 0), StoredAgain(c, l, other))
  {
    hide Decoded, Pushed, S.Wrap, IsLayout, AllStates;
  }

  lemma LatestOfPushed(snapshots: seq<Stored>, maxSnapshots: nat, timeout: nat, state: Snapshot)
    ensures Latest(Pushed(snapshots, maxSnapshots, timeout, S.Wrap(65537), state, 0), S.Wrap(1)) == Some(state)
  {
  }

  lemma PushedAreStates(fields: seq<Schema>, snapshots: seq<Stored>, maxSnapshots: nat, timeout: nat, state: Snapshot)
    requires AllStates(fields, snapshots) && IsState(fields, state)
    ensures AllStates(fields, Pushed(snapshots, maxSnapshots, timeout, S.Wrap(65537), state, 0))
  {
    PushedIsLast(snapshots, maxSnapshots, timeout, S.Wrap(65537), state, 0);
    hide Pushed, S.Wrap, IsState;
  }

  /** The state after the four steps that make number 1 the baseline, as far as it
      matters. */
  lemma AfterFour(c: Config, state: Snapshot, b1: Bytes, b2: Bytes)
    requires IsLayout(c.fields) && FitsLayout(c.fields, state)
    ensures var l := SentNext(1, state, b1, state, b2);
      && l.tracker.confirmed == Some((S.Wrap(1), state)) && GoodTracker(c.fields, l.tracker)
      && l.snapshots == [(S.Wrap(1), state, 0)] && AllStates(c.fields, l.snapshots)
      && Latest(l.snapshots, S.Wrap(1)) == Some(state)
      && l.history == map[1 := state, 2 := state] && l.data == map[1 := b1, 2 := b2]
      && l.snapshotNos == [1] && l.confirmedNo == Some(1) && l.baseOf == map[1 := None, 2 := Some(1)]
  {
    hide S.Wrap;
    AreStatesToo(c, state);
    hide FitsLayout, IsState;
  }

  lemma AppliesDifference(fields: seq<Schema>, state: Snapshot, other: Snapshot)
    requires FitsLayout(fields, state) && FitsLayout(fields, other)
    ensures Applied(state, Diff(other, state)) == other && Applied(other, Diff(state, state)) == other
  {
    DiffThenApply(fields, other, state);
    hide Fits, HasShape;
    assert Applied(other, Diff(state, state)) == other;
  }

  lemma FromOneIs(fields: seq<Schema>, state: Snapshot, current: Snapshot)
    requires IsLayout(fields) && IsState(fields, state) && IsState(fields, current)
    ensures FromOne(fields, state, current) == Payload(fields, Some((S.Wrap(1), state)), current)
  {
  }

  lemma SentAgainIs(c: Config, l: Link, other: Snapshot, bytes: Bytes)
    ensures var l' := SentAgain(c, l, other, bytes);
      && l'.snapshots == l.snapshots && l'.snapshotNos == l.snapshotNos
      && l'.data == l.data[65537 := bytes] && l'.history == l.history[65537 := other]
      && l'.baseOf == l.baseOf[65537 := l.confirmedNo]
  {
  }

  lemma StoredAgainIs(c: Config, l: Link, other: Snapshot)
    ensures var l' := StoredAgain(c, l, other);
      && l'.snapshots == Pushed(l.snapshots, c.maxSnapshots, c.timeout, S.Wrap(65537), other, 0)
      && l'.data == l.data && l'.history == l.history
  {
  }

  lemma AreNear(l1: Link, l2: Link, l3: Link, l4: Link, l5: Link, state: Snapshot, b1: Bytes, b2: Bytes,
                other: Snapshot, b3: Bytes)
    requires l1 == Sent(1, state, b1) && l2 == StoredThere(1, state, b1)
    requires 65537 in l5.baseOf && l5.baseOf[65537] == Some(1) && l5.snapshotNos == [1]
    ensures Near(NEW_LINK, Encode(1, state, b1)) && Near(l1, Deliver(1, 0)) && Near(l2, Ack(1))
    ensures Near(l3, Encode(1 + 1, state, b2)) && Near(l4, Encode(65537, other, b3)) && Near(l5, Deliver(65537, 0))
  {
  }

  lemma SixSteps(c: Config, run: seq<Link>, events: seq<Event>)
    requires IsLayout(c.fields) && |run| == 7 && |events| == 6 && run[0] == NEW_LINK
    requires Step(c, run[0], events[0], run[1]) && Step(c, run[1], events[1], run[2])
    requires Step(c, run[2], events[2], run[3]) && Step(c, run[3], events[3], run[4])
    requires Step(c, run[4], events[4], run[5]) && Step(c, run[5], events[5], run[6])
    ensures AreSteps(c, run, events)
  {
    hide Step;
  }

  /** The run: a state is the baseline under number 1 and is sent again against it,
      unchanged; that payload is late. Meanwhile another state, sent under 65537, is
      stored. Every step so far is near; now the late payload decodes to the other
      state. */
  lemma StaleRun(c: Config, state: Snapshot, other: Snapshot) returns (run: seq<Link>, events: seq<Event>)
    requires IsLayout(c.fields) && FitsLayout(c.fields, state) && FitsLayout(c.fields, other)
    ensures AreSteps(c, run, events) && |events| == 6 && forall i :: 0 <= i < 6 ==> Near(run[i], events[i])
    ensures var l := run[6];
      && 2 in l.data && 2 in l.history && l.history[2] == state && AllStates(c.fields, l.snapshots)
      && Decoded(c.fields, l.data[2], l.snapshots) == Success(other)
  {
    hide *;
    AreStatesToo(c, state);
    AreStatesToo(c, other);
    var b1 := BytesOf(Payload(c.fields, None, state).bits);
    var b2, b3 := BytesOf(FromOne(c.fields, state, state).bits), BytesOf(FromOne(c.fields, state, other).bits);
    BytesOfBits(Payload(c.fields, None, state).bits);
    BytesOfBits(FromOne(c.fields, state, state).bits);
    BytesOfBits(FromOne(c.fields, state, other).bits);
    FromOneIs(c.fields, state, state);
    SendsFirst(c, 1, state, b1);
    StoresFirst(c, 1, state, b1);
    ConfirmsFirst(c, 1, state, b1);
    SendsNext(c, 1, state, b1, state, b2);
    AfterFour(c, state, b1, b2);
    var l4 := SentNext(1, state, b1, state, b2);
    var l5 := SentAgain(c, l4, other, b3);
    var l6 := StoredAgain(c, l5, other);
    SendsAgain(c, l4, state, other, b3);
    SentAgainIs(c, l4, other, b3);
    AppliesDifference(c.fields, state, other);
    DecodesFromOne(c.fields, state, other, state, b3, l5.snapshots);
    StoresAgain(c, l5, state, other);
    StoredAgainIs(c, l5, other);
    LatestOfPushed(l5.snapshots, c.maxSnapshots, c.timeout, other);
    PushedAreStates(c.fields, l5.snapshots, c.maxSnapshots, c.timeout, other);
    DecodesFromOne(c.fields, state, state, other, b2, l6.snapshots);
    run := [NEW_LINK, Sent(1, state, b1), StoredThere(1, state, b1), Confirmed(1, state, b1), l4, l5, l6];
    var e1, e2, e3 := Encode(1, state, b1), Deliver(1, 0), Ack(1);
    var e4, e5, e6 := Encode(1 + 1, state, b2), Encode(65537, other, b3), Deliver(65537, 0);
    events := [e1, e2, e3, e4, e5, e6];
    SixSteps(c, run, events);
    AreNear(run[1], run[2], run[3], l4, l5, state, b1, b2, other, b3);
  }
}
