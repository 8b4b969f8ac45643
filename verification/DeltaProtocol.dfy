/** The two ends together, over a network that loses, repeats and reorders both
    the payloads and the acknowledgements. Beside every 16-bit number on the wire
    stands the unbounded number it is short for. */
module DeltaProtocol {
  import opened Wrappers
  import opened BitIo
  import opened Codec
  import opened DeltaCodec
  import opened DeltaBaselines
  import S = SequenceNumbers
  import Bits

  datatype Config = Config(fields: seq<Schema>, maxPending: nat, maxSnapshots: nat, timeout: nat)

  /** Both ends, what has been sent, and the unbounded numbers of it all. */
  datatype Link = Link(
    tracker: Tracker,
    snapshots: seq<Stored>,
    history: map<nat, Snapshot>,
    data: map<nat, Bytes>,
    baseOf: map<nat, Option<nat>>,
    stored: set<nat>,
    pendingNos: seq<nat>,
    confirmedNo: Option<nat>,
    snapshotNos: seq<nat>)

  const NEW_LINK := Link(Tracker([], None), [], map[], map[], map[], {}, [], None, [])

  datatype Event =
    | Encode(n: nat, state: Snapshot, bytes: Bytes)
    | Deliver(n: nat, now: Instant)
    | Ack(n: nat)

  predicate Padded(bits: BitString, bytes: Bytes) { AllBits(bytes) == bits + Zeros((8 - |bits| % 8) % 8) }

  predicate FitsLayout(fields: seq<Schema>, s: Snapshot) {
    IsState(fields, s) && forall i :: 0 <= i < |fields| ==> Fits(fields[i], s[i])
  }

  function Position(nos: seq<nat>, n: nat): (p: nat)
    ensures p <= |nos|
  {
    if nos == [] || nos[0] == n then 0 else 1 + Position(nos[1..], n)
  }

  function LastOf(nos: seq<nat>, k: nat): seq<nat> { if k <= |nos| then nos[|nos| - k..] else nos }

  /** A state is encoded under a number greater than any before. */
  ghost predicate Encodes(c: Config, l: Link, n: nat, state: Snapshot, bytes: Bytes, l': Link)
    requires IsLayout(c.fields)
  {
    && (forall m :: m in l.history ==> m < n) && GoodTracker(c.fields, l.tracker) && FitsLayout(c.fields, state)
    && Payload(c.fields, l.tracker.confirmed, state).r.Pass?
    && Padded(Payload(c.fields, l.tracker.confirmed, state).bits, bytes)
    && var nos := if |l.pendingNos| >= c.maxPending && l.pendingNos != [] then l.pendingNos[1..] else l.pendingNos;
    l' == l.(tracker := Remembered(l.tracker, c.maxPending, S.Wrap(n), state),
             history := l.history[n := state], data := l.data[n := bytes],
             baseOf := l.baseOf[n := l.confirmedNo], pendingNos := nos + [n])
  }

  /** A payload arrives; if it decodes, the state is stored and may from then on
      be acknowledged. */
  ghost predicate Delivers(c: Config, l: Link, n: nat, now: Instant, l': Link)
    requires IsLayout(c.fields)
  {
    && n in l.data && AllStates(c.fields, l.snapshots)
    && match Decoded(c.fields, l.data[n], l.snapshots)
       case Failure(_) => l' == l
       case Success(state) =>
         var kept := Pushed(l.snapshots, c.maxSnapshots, c.timeout, S.Wrap(n), state, now);
         l' == l.(snapshots := kept, snapshotNos := LastOf(l.snapshotNos + [n], |kept|), stored := l.stored + {n})
  }

  /** An acknowledgement of something stored arrives, perhaps again. What it finds
      pending is of the same wire number. */
  ghost predicate Acks(l: Link, n: nat, l': Link) {
    && n in l.stored && |l.pendingNos| == |l.tracker.pending|
    && var p := FirstAt(l.tracker.pending, S.Wrap(n));
    var after := Acknowledged(l.tracker, S.Wrap(n));
    if p == |l.pendingNos| then l' == l
    else l' == l.(tracker := after, confirmedNo := Some(l.pendingNos[p]),
                  pendingNos := LastOf(l.pendingNos[..p] + l.pendingNos[p + 1..], |after.pending|))
  }

  ghost predicate Step(c: Config, l: Link, e: Event, l': Link)
    requires IsLayout(c.fields)
  {
    match e
    case Encode(n, state, bytes) => Encodes(c, l, n, state, bytes, l')
    case Deliver(n, now) => Delivers(c, l, n, now, l')
    case Ack(n) => Acks(l, n, l')
  }

  /** A delivery's baseline is close to what is stored: no 16-bit number stands for
      two of them. The sentinel is not used as a number. */
  ghost predicate Near(l: Link, e: Event) {
    match e
    case Encode(n, _, _) => S.Wrap(n) != NO_BASELINE
    case Deliver(n, _) =>
      n in l.baseOf && l.baseOf[n].Some? ==>
        forall m :: m in l.snapshotNos ==> -S.FULL_RANGE < m - l.baseOf[n].value < S.FULL_RANGE
    case Ack(_) => true
  }

  /** An acknowledgement is within half the space of what is pending. */
  ghost predicate AcksNear(l: Link, e: Event) {
    e.Ack? ==> forall m :: m in l.pendingNos ==> -S.HALF_RANGE < m - e.n < S.HALF_RANGE
  }

  /** A run from the start, with numbers at any distance. */
  ghost predicate AreSteps(c: Config, run: seq<Link>, events: seq<Event>)
    requires IsLayout(c.fields)
  {
    && |run| == |events| + 1 && run[0] == NEW_LINK
    && forall i :: 0 <= i < |events| ==> Step(c, run[i], events[i], run[i + 1])
  }

  ghost predicate IsRun(c: Config, run: seq<Link>, events: seq<Event>)
    requires IsLayout(c.fields)
  {
    AreSteps(c, run, events) && forall i :: 0 <= i < |events| ==> Near(run[i], events[i])
  }

  // ---------- the invariant ----------

  function Entry(history: map<nat, Snapshot>, n: nat): Numbered
    requires n in history
  {
    (S.Wrap(n), history[n])
  }

  ghost predicate GoodHistory(c: Config, l: Link) {
    forall n :: n in l.history ==> FitsLayout(c.fields, l.history[n]) && S.Wrap(n) != NO_BASELINE
  }

  ghost predicate Matches(history: map<nat, Snapshot>, pending: seq<Numbered>, nos: seq<nat>) {
    |pending| == |nos| && forall i :: 0 <= i < |nos| ==> nos[i] in history && pending[i] == Entry(history, nos[i])
  }

  /** The sender's wire numbers stand for the unbounded ones beside them. */
  ghost predicate GoodSender(l: Link) {
    && Matches(l.history, l.tracker.pending, l.pendingNos)
    && (match l.confirmedNo
        case None => l.tracker.confirmed == None
        case Some(b) => b in l.history && l.tracker.confirmed == Some(Entry(l.history, b)))
  }

  /** They increase, all above the confirmed one. */
  ghost predicate InOrder(l: Link) {
    && (forall i, j :: 0 <= i < j < |l.pendingNos| ==> l.pendingNos[i] < l.pendingNos[j])
    && (l.confirmedNo.Some? ==> forall i :: 0 <= i < |l.pendingNos| ==> l.confirmedNo.value < l.pendingNos[i])
  }

  ghost predicate GoodReceiver(l: Link) {
    l.stored <= l.history.Keys && StandFor(l.history, l.snapshots, l.snapshotNos)
  }

  /** A payload is what was sent for its number against its baseline. */
  ghost predicate GoodPayload(c: Config, l: Link, n: nat)
    requires IsLayout(c.fields) && GoodHistory(c, l)
  {
    && n in l.history && n in l.data && n in l.baseOf
    && var base := l.baseOf[n];
    && (base.Some? ==> base.value in l.history)
    && var o := Payload(c.fields, if base.Some? then Some(Entry(l.history, base.value)) else None, l.history[n]);
    o.r.Pass? && Padded(o.bits, l.data[n])
  }

  ghost predicate Inv(c: Config, l: Link)
    requires IsLayout(c.fields)
  {
    && GoodHistory(c, l) && GoodSender(l) && GoodReceiver(l)
    && (forall n :: n in l.data ==> GoodPayload(c, l, n))
  }

  // ---------- decoding ----------

  /** The state most recently stored under a wire number is the one whose
      unbounded number that is, if it is still there. */
  lemma {:induction false} LatestIsBase(history: map<nat, Snapshot>, snapshots: seq<Stored>, nos: seq<nat>, b: nat)
    requires StandFor(history, snapshots, nos) && b in history
    requires forall m :: m in nos ==> -S.FULL_RANGE < m - b < S.FULL_RANGE
    ensures Latest(snapshots, S.Wrap(b)) == if b in nos then Some(history[b]) else None
  {
    if nos != [] {
      var k := |nos| - 1;
      assert nos[k] in nos && nos == nos[..k] + [nos[k]];
      assert forall m :: m in nos[..k] ==> m in nos;
      OneNumber(nos[k], b);
      hide S.Wrap;
      LatestIsBase(history, snapshots[..k], nos[..k], b);
    }
  }

  lemma OneNumber(m: int, b: int)
    requires -S.FULL_RANGE < m - b < S.FULL_RANGE
    ensures S.Wrap(m) == S.Wrap(b) <==> m == b
  {
  }

  /** A payload read back: the state that was encoded, or, for want of its
      baseline, an error. */
  lemma PayloadDecodes(fields: seq<Schema>, baseline: Option<Numbered>, current: Snapshot, bytes: Bytes,
                       snapshots: seq<Stored>)
    requires IsLayout(fields) && AllStates(fields, snapshots) && FitsLayout(fields, current)
    requires baseline.Some? ==> IsState(fields, baseline.value.1) && baseline.value.0 != NO_BASELINE
    requires var o := Payload(fields, baseline, current); o.r.Pass? && Padded(o.bits, bytes)
    requires baseline.Some? ==>
      Latest(snapshots, baseline.value.0) == None || Latest(snapshots, baseline.value.0) == Some(baseline.value.1)
    ensures Decoded(fields, bytes, snapshots)
         == if baseline.Some? && Latest(snapshots, baseline.value.0) == None
           then Failure(InvalidData) else Success(current)
  {
    var o := Payload(fields, baseline, current);
    var pad := Zeros((8 - |o.bits| % 8) % 8);
    match baseline
    case Some((number, base)) =>
      DeltaDecodes(fields, number, base, current, pad, bytes, snapshots);
      DiffThenApply(fields, current, base);
    case None => WholeDecodes(fields, current, pad, bytes, snapshots);
  }

  lemma NumberFirst(number: u16, body: BitString, pad: BitString)
    ensures TakeNumber(BigEndian(number, BASELINE_SEQ_BITS) + body + pad, BASELINE_SEQ_BITS)
         == Success(Parsed(number, body + pad))
  {
    Bits.WordSizes();
    hide Bits.Pow2, BigEndian, TakeNumber;
    PrefixedNumber(number, BASELINE_SEQ_BITS, body, pad);
  }

  /** A difference is applied to whatever state is found under its baseline's wire
      number. */
  lemma DeltaDecodes(fields: seq<Schema>, number: u16, base: Snapshot, current: Snapshot, pad: BitString, bytes: Bytes,
                     snapshots: seq<Stored>)
    requires IsLayout(fields) && AllStates(fields, snapshots) && FitsLayout(fields, current)
    requires IsState(fields, base) && number != NO_BASELINE
    requires var o := Payload(fields, Some((number, base)), current); o.r.Pass? && AllBits(bytes) == o.bits + pad
    ensures Latest(snapshots, number).Some? ==> IsState(fields, Latest(snapshots, number).value)
    ensures Decoded(fields, bytes, snapshots) == match Latest(snapshots, number)
                                                 case None => Failure(InvalidData)
                                                 case Some(found) => Success(Applied(found, Diff(current, base)))
  {
    DiffThenApply(fields, current, base);
    LatestIsState(fields, snapshots, number);
    var d := Diff(current, base);
    assert forall i :: 0 <= i < |fields| && d[i].Some? ==> Fits(fields[i], d[i].value);
    FittingDelta(fields, d);
    NumberFirst(number, EmitDelta(fields, d).bits, pad);
    DeltaReadsBack(fields, d, pad);
    hide EmitDelta, ParseDelta, TakeNumber, BigEndian, Diff, Applied, KeptDelta, Latest, FitsLayout, IsState, IsDelta,
      AllBits;
  }

  lemma WholeDecodes(fields: seq<Schema>, current: Snapshot, pad: BitString, bytes: Bytes, snapshots: seq<Stored>)
    requires IsLayout(fields) && AllStates(fields, snapshots) && IsState(fields, current)
    requires var o := Payload(fields, None, current); o.r.Pass? && AllBits(bytes) == o.bits + pad
    ensures Decoded(fields, bytes, snapshots) == Success(current)
  {
    StateIsRecord(fields, Items(current));
    var whole := Emit(Tuple(fields), Items(current)).bits;
    NumberFirst(NO_BASELINE, whole, pad);
    RoundTrip(Tuple(fields), Items(current), pad);
    hide Emit, Parse, TakeNumber, BigEndian, IsState, AllBits;
  }

  // ---------- every step keeps the invariant ----------

  ghost predicate BaseKept(l: Link, n: nat)
    requires n in l.baseOf
  {
    l.baseOf[n].Some? ==> l.baseOf[n].value in l.snapshotNos
  }

  /** What arrives decodes to the state encoded under its number, or, if its
      baseline is no longer held, to the missing-baseline error. */
  lemma DeliveryDecodes(c: Config, l: Link, n: nat, now: Instant)
    requires IsLayout(c.fields) && Inv(c, l) && n in l.data && Near(l, Deliver(n, now))
    ensures n in l.history && n in l.baseOf && AllStates(c.fields, l.snapshots)
    ensures Decoded(c.fields, l.data[n], l.snapshots)
         == if BaseKept(l, n) then Success(l.history[n]) else Failure(InvalidData)
  {
    assert GoodPayload(c, l, n);
    StoredAreStates(c, l);
    hide AllBits, Decoded, Payload, HasShape, Fits;
    var base := l.baseOf[n];
    if base.Some? {
      LatestIsBase(l.history, l.snapshots, l.snapshotNos, base.value);
      assert FitsLayout(c.fields, l.history[base.value]);
    }
    var baseline := if base.Some? then Some(Entry(l.history, base.value)) else None;
    PayloadDecodes(c.fields, baseline, l.history[n], l.data[n], l.snapshots);
  }

  lemma StoredAreStates(c: Config, l: Link)
    requires IsLayout(c.fields) && GoodHistory(c, l) && GoodReceiver(l)
    ensures AllStates(c.fields, l.snapshots)
  {
    hide HasShape, Fits;
    forall i | 0 <= i < |l.snapshots| ensures IsState(c.fields, l.snapshots[i].1) {
      assert FitsLayout(c.fields, l.history[l.snapshotNos[i]]);
    }
  }

  lemma EncodeKeeps(c: Config, l: Link, n: nat, state: Snapshot, bytes: Bytes, l': Link)
    requires IsLayout(c.fields) && Inv(c, l) && Encodes(c, l, n, state, bytes, l') && S.Wrap(n) != NO_BASELINE
    ensures Inv(c, l')
  {
    EncodeKeepsSender(c, l, n, state, bytes, l');
    hide S.Wrap, Payload, Padded, FitsLayout, GoodSender, GoodTracker, Remembered;
    assert GoodHistory(c, l');
    assert GoodReceiver(l') by { NumbersKept(l.history, l'.history, l.snapshots, l.snapshotNos); hide StandFor; }
    hide GoodReceiver;
    forall m | m in l'.data ensures GoodPayload(c, l', m) {
      if m == n {
        EncodedIsGood(c, l, n, state, bytes, l');
      } else {
        PayloadKept(c, l, l', m);
      }
    }
  }

  lemma NumbersKept(before: map<nat, Snapshot>, after: map<nat, Snapshot>, snapshots: seq<Stored>, nos: seq<nat>)
    requires StandFor(before, snapshots, nos) && forall n :: n in before ==> n in after && after[n] == before[n]
    ensures StandFor(after, snapshots, nos)
  {
  }

  lemma PayloadKept(c: Config, l: Link, l': Link, m: nat)
    requires IsLayout(c.fields) && GoodHistory(c, l) && GoodHistory(c, l') && GoodPayload(c, l, m)
    requires forall n :: n in l.history ==> n in l'.history && l'.history[n] == l.history[n]
    requires m in l'.data && l'.data[m] == l.data[m] && m in l'.baseOf && l'.baseOf[m] == l.baseOf[m]
    ensures GoodPayload(c, l', m)
  {
    hide S.Wrap, Payload, Padded, FitsLayout;
  }

  lemma EncodedIsGood(c: Config, l: Link, n: nat, state: Snapshot, bytes: Bytes, l': Link)
    requires IsLayout(c.fields) && Inv(c, l) && Encodes(c, l, n, state, bytes, l') && GoodHistory(c, l')
    ensures GoodPayload(c, l', n)
  {
    hide S.Wrap, Padded, FitsLayout, Payload;
  }

  lemma EncodeKeepsSender(c: Config, l: Link, n: nat, state: Snapshot, bytes: Bytes, l': Link)
    requires IsLayout(c.fields) && Inv(c, l) && Encodes(c, l, n, state, bytes, l')
    ensures GoodSender(l')
  {
    hide S.Wrap, Padded, FitsLayout, Payload, GoodPayload, GoodHistory;
  }

  lemma DeliverKeeps(c: Config, l: Link, n: nat, now: Instant, l': Link)
    requires IsLayout(c.fields) && Inv(c, l) && Delivers(c, l, n, now, l') && Near(l, Deliver(n, now))
    ensures Inv(c, l')
  {
    DeliveryDecodes(c, l, n, now);
    hide Decoded, Near, S.Wrap, FitsLayout, Payload, GoodHistory, GoodSender, GoodReceiver, GoodPayload, Pushed, LastOf;
    if l' != l {
      DeliverKeepsReceiver(c, l, n, now, l');
      DeliverKeepsRest(c, l, l');
    }
  }

  /** What a delivery does not touch stays good. */
  lemma DeliverKeepsRest(c: Config, l: Link, l': Link)
    requires IsLayout(c.fields) && GoodHistory(c, l) && GoodSender(l)
    requires forall m :: m in l.data ==> GoodPayload(c, l, m)
    requires l' == l.(snapshots := l'.snapshots, snapshotNos := l'.snapshotNos, stored := l'.stored)
    ensures GoodHistory(c, l') && GoodSender(l') && forall m :: m in l'.data ==> GoodPayload(c, l', m)
  {
    hide S.Wrap, FitsLayout, Payload;
    forall m | m in l'.data ensures GoodPayload(c, l', m) { assert GoodPayload(c, l, m); }
  }

  lemma DeliverKeepsReceiver(c: Config, l: Link, n: nat, now: Instant, l': Link)
    requires GoodReceiver(l) && n in l.history && l'.history == l.history && l'.stored == l.stored + {n}
    requires l'.snapshots == Pushed(l.snapshots, c.maxSnapshots, c.timeout, S.Wrap(n), l.history[n], now)
    requires l'.snapshotNos == LastOf(l.snapshotNos + [n], |l'.snapshots|)
    ensures GoodReceiver(l')
  {
    PushedIsLast(l.snapshots, c.maxSnapshots, c.timeout, S.Wrap(n), l.history[n], now);
    hide S.Wrap, Pushed;
    var last := (S.Wrap(n), l.history[n], now);
    var gone := |l.snapshots| + 1 - |l'.snapshots|;
    assert l'.snapshots == (l.snapshots + [last])[gone..];
    assert l'.snapshotNos == (l.snapshotNos + [n])[gone..];
    hide LastOf;
    OneMoreNumbered(l.history, l.snapshots, l.snapshotNos, last, n);
    SuffixNumbered(l.history, l.snapshots + [last], l.snapshotNos + [n], gone);
  }

  /** The stored states are those of the numbers beside them. */
  ghost predicate StandFor(history: map<nat, Snapshot>, snapshots: seq<Stored>, nos: seq<nat>) {
    && |snapshots| == |nos|
    && forall i :: 0 <= i < |nos| ==>
         nos[i] in history && (snapshots[i].0, snapshots[i].1) == Entry(history, nos[i])
  }

  lemma OneMoreNumbered(history: map<nat, Snapshot>, snapshots: seq<Stored>, nos: seq<nat>, last: Stored, n: nat)
    requires StandFor(history, snapshots, nos) && n in history && (last.0, last.1) == Entry(history, n)
    ensures StandFor(history, snapshots + [last], nos + [n])
  {
    hide Entry;
  }

  lemma SuffixNumbered(history: map<nat, Snapshot>, snapshots: seq<Stored>, nos: seq<nat>, gone: nat)
    requires StandFor(history, snapshots, nos) && gone <= |nos|
    ensures StandFor(history, snapshots[gone..], nos[gone..])
  {
    hide Entry;
  }

  lemma PushedIsLast(snapshots: seq<Stored>, maxSnapshots: nat, timeout: nat, number: u16, state: Snapshot,
                     now: Instant)
    ensures var kept, more := Pushed(snapshots, maxSnapshots, timeout, number, state, now),
                              snapshots + [(number, state, now)];
      |kept| <= |more| && kept == more[|more| - |kept|..]
  {
    var live := DropExpired(snapshots, timeout, now);
    hide DropExpired;
    var gone := |snapshots| - |live|;
    SuffixSnoc(snapshots, (number, state, now), gone);
    if live != [] {
      assert live[1..] == snapshots[gone + 1..];
      SuffixSnoc(snapshots, (number, state, now), gone + 1);
    }
  }

  lemma SuffixSnoc<T>(s: seq<T>, x: T, k: nat)
    requires k <= |s|
    ensures s[k..] + [x] == (s + [x])[k..]
  {
  }

  lemma {:induction false} PositionIs(nos: seq<nat>, n: nat)
    ensures var p := Position(nos, n);
      p <= |nos| && (p < |nos| ==> nos[p] == n) && forall i :: 0 <= i < p ==> nos[i] != n
  {
    if nos != [] && nos[0] != n { PositionIs(nos[1..], n); }
  }

  /** Looking for the wire number finds the unbounded one. */
  lemma {:induction false} FirstIsPosition(pending: seq<Numbered>, nos: seq<nat>, n: nat)
    requires |pending| == |nos| && forall i :: 0 <= i < |nos| ==> pending[i].0 == S.Wrap(nos[i])
    requires forall m :: m in nos ==> -S.FULL_RANGE < m - n < S.FULL_RANGE
    ensures FirstAt(pending, S.Wrap(n)) == Position(nos, n)
  {
    if nos != [] {
      assert nos[0] in nos;
      OneNumber(nos[0], n);
      hide S.Wrap;
      assert forall m :: m in nos[1..] ==> m in nos;
      if nos[0] != n { FirstIsPosition(pending[1..], nos[1..], n); }
    }
  }

  /** Everything older than the acknowledged number goes, and nothing else. */
  lemma {:induction false} OlderGo(pending: seq<Numbered>, nos: seq<nat>, n: nat, p: nat)
    requires |pending| == |nos| && p <= |nos| && forall i :: 0 <= i < |nos| ==> pending[i].0 == S.Wrap(nos[i])
    requires forall m :: m in nos ==> -S.HALF_RANGE < m - n < S.HALF_RANGE
    requires (forall i :: 0 <= i < p ==> nos[i] < n) && (forall i :: p <= i < |nos| ==> nos[i] > n)
    ensures DropOlder(pending, S.Wrap(n)) == pending[p..]
  {
    if nos != [] {
      assert nos[0] in nos;
      S.AgreesWithinHalfRange(nos[0], n);
      hide S.Wrap, S.Diff, S.GreaterThan;
      if p > 0 {
        assert forall m :: m in nos[1..] ==> m in nos;
        OlderGo(pending[1..], nos[1..], n, p - 1);
        assert pending[1..][p - 1..] == pending[p..];
      }
    }
  }

  /** Taking an entry out and dropping what is older leaves what is newer. */
  lemma OnlyNewerStay(pending: seq<Numbered>, nos: seq<nat>, n: nat, p: nat)
    requires |pending| == |nos| && p < |nos| && nos[p] == n
    requires forall i :: 0 <= i < |nos| ==> pending[i].0 == S.Wrap(nos[i])
    requires forall i, j :: 0 <= i < j < |nos| ==> nos[i] < nos[j]
    requires forall m :: m in nos ==> -S.HALF_RANGE < m - n < S.HALF_RANGE
    ensures DropOlder(pending[..p] + pending[p + 1..], S.Wrap(n)) == pending[p + 1..]
  {
    hide *;
    var rest, restNos := pending[..p] + pending[p + 1..], nos[..p] + nos[p + 1..];
    assert forall m :: m in restNos ==> m in nos;
    forall i | 0 <= i < |restNos|
      ensures rest[i].0 == S.Wrap(restNos[i]) && (i < p ==> restNos[i] < n) && (i >= p ==> restNos[i] > n)
    {
      var k := if i < p then i else i + 1;
      assert restNos[i] == nos[k] && rest[i] == pending[k];
    }
    OlderGo(rest, restNos, n, p);
    assert rest[p..] == pending[p + 1..];
  }

  lemma AckEffect(l: Link, n: nat, l': Link)
    requires GoodSender(l) && InOrder(l) && Acks(l, n, l') && AcksNear(l, Ack(n))
    ensures
      var p := Position(l.pendingNos, n);
      l' == if p == |l.pendingNos| then l
            else l.(tracker := Tracker(l.tracker.pending[p + 1..], Some(l.tracker.pending[p])),
                    confirmedNo := Some(n), pendingNos := l.pendingNos[p + 1..])
  {
    var nos, pending, p := l.pendingNos, l.tracker.pending, Position(l.pendingNos, n);
    hide S.Wrap, Position, FirstAt, DropOlder;
    PositionIs(nos, n);
    FirstIsPosition(pending, nos, n);
    if p < |nos| {
      OnlyNewerStay(pending, nos, n, p);
      assert LastOf(nos[..p] + nos[p + 1..], |nos| - p - 1) == nos[p + 1..];
    }
  }

  /** Near acknowledgements keep the sender's numbers in order, and the confirmed
      one never moves back. */
  lemma AckKeepsOrder(l: Link, n: nat, l': Link)
    requires GoodSender(l) && InOrder(l) && Acks(l, n, l') && AcksNear(l, Ack(n))
    ensures InOrder(l')
    ensures l.confirmedNo.Some? ==> l'.confirmedNo.Some? && l'.confirmedNo.value >= l.confirmedNo.value
  {
    hide *;
    AckEffect(l, n, l');
    PositionIs(l.pendingNos, n);
    var p := Position(l.pendingNos, n);
    if p < |l.pendingNos| { RestInOrder(l, l', p); }
  }

  lemma RestInOrder(l: Link, l': Link, p: nat)
    requires InOrder(l) && p < |l.pendingNos|
    requires l'.pendingNos == l.pendingNos[p + 1..] && l'.confirmedNo == Some(l.pendingNos[p])
    ensures InOrder(l') && (l.confirmedNo.Some? ==> l.confirmedNo.value < l.pendingNos[p])
  {
  }

  lemma {:induction false} DropOlderIsSuffix(pending: seq<Numbered>, number: u16)
    ensures var kept := DropOlder(pending, number); |kept| <= |pending| && kept == pending[|pending| - |kept|..]
  {
    hide S.Diff;
    if pending != [] { DropOlderIsSuffix(pending[1..], number); }
  }

  lemma WithoutMatches(history: map<nat, Snapshot>, pending: seq<Numbered>, nos: seq<nat>, p: nat, kept: nat)
    requires Matches(history, pending, nos) && p < |nos| && kept <= |nos| - 1
    ensures Matches(history, (pending[..p] + pending[p + 1..])[|nos| - 1 - kept..],
                    LastOf(nos[..p] + nos[p + 1..], kept))
  {
    hide Entry;
  }

  /** Whatever the distance, the entries that stay pending keep their numbers. */
  lemma AckKeepsSender(l: Link, n: nat, l': Link)
    requires GoodSender(l) && Acks(l, n, l')
    ensures GoodSender(l')
  {
    var pending, nos, p := l.tracker.pending, l.pendingNos, FirstAt(l.tracker.pending, S.Wrap(n));
    if p < |nos| {
      var rest := pending[..p] + pending[p + 1..];
      DropOlderIsSuffix(rest, pending[p].0);
      WithoutMatches(l.history, pending, nos, p, |DropOlder(rest, pending[p].0)|);
      hide Entry, FirstAt, DropOlder, S.Wrap, LastOf;
      assert Matches(l.history, l'.tracker.pending, l'.pendingNos);
    }
  }

  lemma AckKeeps(c: Config, l: Link, n: nat, l': Link)
    requires IsLayout(c.fields) && Inv(c, l) && Acks(l, n, l')
    ensures Inv(c, l')
  {
    AckKeepsSender(l, n, l');
    hide GoodSender, FirstAt, LastOf, Acknowledged, S.Wrap, FitsLayout, Payload, Padded;
    forall m | m in l'.data ensures GoodPayload(c, l', m) { assert GoodPayload(c, l, m); }
  }

  lemma StepKeeps(c: Config, l: Link, e: Event, l': Link)
    requires IsLayout(c.fields) && Inv(c, l) && Step(c, l, e, l') && Near(l, e)
    ensures Inv(c, l')
    ensures e.Deliver? ==>
      && e.n in l.data && e.n in l.history && e.n in l.baseOf && AllStates(c.fields, l.snapshots)
      && Decoded(c.fields, l.data[e.n], l.snapshots)
         == if BaseKept(l, e.n) then Success(l.history[e.n]) else Failure(InvalidData)
  {
    match e
    case Encode(n, state, bytes) =>
      EncodeKeeps(c, l, n, state, bytes, l');
      hide Inv, Payload, FitsLayout;
    case Deliver(n, now) =>
      DeliveryDecodes(c, l, n, now);
      DeliverKeeps(c, l, n, now, l');
      hide Inv, Decoded, Near;
    case Ack(n) => AckKeeps(c, l, n, l');
      hide Inv;
  }

  lemma StepKeepsOrder(c: Config, l: Link, e: Event, l': Link)
    requires IsLayout(c.fields) && Inv(c, l) && InOrder(l) && Step(c, l, e, l') && AcksNear(l, e)
    ensures InOrder(l')
    ensures l.confirmedNo.Some? ==> l'.confirmedNo.Some? && l'.confirmedNo.value >= l.confirmedNo.value
  {
    hide S.Wrap, FitsLayout, Payload, Padded, GoodPayload, GoodHistory, GoodReceiver, Decoded, Pushed, Remembered,
      AcksNear;
    match e
    case Encode(n, state, bytes) =>
      hide Entry;
    case Deliver(n, now) =>
    case Ack(n) => AckKeepsOrder(l, n, l');
      hide Acks;
  }

  lemma NewIsGood(c: Config)
    requires IsLayout(c.fields)
    ensures Inv(c, NEW_LINK)
  {
  }

  lemma {:induction false} RunKeeps(c: Config, run: seq<Link>, events: seq<Event>, k: nat)
    requires IsLayout(c.fields) && IsRun(c, run, events) && k <= |events|
    ensures Inv(c, run[k])
    decreases k
  {
    hide Inv, Step, Near;
    if k == 0 {
      NewIsGood(c);
    } else {
      RunKeeps(c, run, events, k - 1);
      StepKeeps(c, run[k - 1], events[k - 1], run[k]);
    }
  }

  /** Whatever is lost, repeated, reordered, evicted or timed out, what arrives
      decodes to exactly the state that was encoded, or to the missing-baseline
      error, and never to another state. */
  lemma DecodesWhatWasEncoded(c: Config, run: seq<Link>, events: seq<Event>, k: nat)
    requires IsLayout(c.fields) && IsRun(c, run, events) && k < |events| && events[k].Deliver?
    ensures
      var l, n := run[k], events[k].n;
      && n in l.data && n in l.history && n in l.baseOf && AllStates(c.fields, l.snapshots)
      && Decoded(c.fields, l.data[n], l.snapshots)
         == if BaseKept(l, n) then Success(l.history[n]) else Failure(InvalidData)
  {
    RunKeeps(c, run, events, k);
    hide Inv, Near, Decoded;
    StepKeeps(c, run[k], events[k], run[k + 1]);
  }

  lemma {:induction false} RunKeepsOrder(c: Config, run: seq<Link>, events: seq<Event>, k: nat)
    requires IsLayout(c.fields) && IsRun(c, run, events) && k <= |events|
    requires forall i :: 0 <= i < |events| ==> AcksNear(run[i], events[i])
    ensures InOrder(run[k])
    decreases k
  {
    hide Inv, Step, Near, AcksNear;
    if k > 0 {
      RunKeepsOrder(c, run, events, k - 1);
      RunKeeps(c, run, events, k - 1);
      StepKeepsOrder(c, run[k - 1], events[k - 1], run[k]);
    }
  }

  /** The confirmed baseline never moves back. */
  lemma {:induction false} ConfirmedNeverMovesBack(c: Config, run: seq<Link>, events: seq<Event>, i: nat, j: nat)
    requires IsLayout(c.fields) && IsRun(c, run, events) && i <= j <= |events| && run[i].confirmedNo.Some?
    requires forall k :: 0 <= k < |events| ==> AcksNear(run[k], events[k])
    ensures run[j].confirmedNo.Some? && run[i].confirmedNo.value <= run[j].confirmedNo.value
    decreases j
  {
    hide Inv, Near, Step, AcksNear, InOrder;
    if i < j {
      ConfirmedNeverMovesBack(c, run, events, i, j - 1);
      RunKeeps(c, run, events, j - 1);
      RunKeepsOrder(c, run, events, j - 1);
      StepKeepsOrder(c, run[j - 1], events[j - 1], run[j]);
    }
  }

  /** With what is pending further apart it can: an entry half the numbers behind the
      one acknowledged stays, and its acknowledgement then goes back to it. */
  lemma FarAckMovesBack(older: Snapshot, newer: Snapshot)
    ensures var one := Acknowledged(Tracker([(1, older), (40000, newer)], None), 40000);
      one.confirmed == Some((40000, newer)) && Acknowledged(one, 1).confirmed == Some((1, older))
  {
    var pending: seq<Numbered> := [(1, older), (40000, newer)];
    assert FirstAt(pending[1..], 40000) == 0 && FirstAt(pending, 40000) == 1;
    assert pending[..1] + pending[2..] == [(1, older)];
  }

  // ---------- the sentinel ----------

  /** The bits of a whole state. */
  function Whole(fields: seq<Schema>, state: Snapshot): Output
    requires IsState(fields, state)
  {
    StateIsRecord(fields, Items(state));
    Emit(Tuple(fields), Items(state))
  }

  /** The bits of the difference, and what pads them, begin with the whole state. */
  ghost predicate BeginsWhole(fields: seq<Schema>, base: Snapshot, current: Snapshot, pad: BitString)
    requires IsState(fields, base) && IsState(fields, current)
  {
    DiffThenApply(fields, current, base);
    Whole(fields, current).r.Pass? && Whole(fields, current).bits <= EmitDelta(fields, Diff(current, base)).bits + pad
  }

  /** Against a baseline under the sentinel's number a payload decodes to its state
      if and only if its difference happens to begin with the whole state. */
  lemma SentinelDecodesIff(fields: seq<Schema>, base: Snapshot, current: Snapshot, pad: BitString, bytes: Bytes,
                           snapshots: seq<Stored>)
    requires IsLayout(fields) && AllStates(fields, snapshots) && IsState(fields, base) && IsState(fields, current)
    requires var o := Payload(fields, Some((NO_BASELINE, base)), current);
             o.r.Pass? && AllBits(bytes) == o.bits + pad
    ensures Decoded(fields, bytes, snapshots) == Success(current) <==> BeginsWhole(fields, base, current, pad)
  {
    DiffThenApply(fields, current, base);
    var rest := EmitDelta(fields, Diff(current, base)).bits + pad;
    NumberFirst(NO_BASELINE, EmitDelta(fields, Diff(current, base)).bits, pad);
    WholeReadsIff(fields, current, rest);
    hide AllBits, TakeNumber, BigEndian, Parse, Emit, EmitDelta, IsState, Diff;
    ReadsOnlyWritten(Tuple(fields), rest);
  }

  lemma WholeReadsIff(fields: seq<Schema>, current: Snapshot, s: BitString)
    requires IsLayout(fields) && IsState(fields, current)
    ensures (Parse(Tuple(fields), s).Success? && Parse(Tuple(fields), s).value.value == Items(current))
       <==> Whole(fields, current).r.Pass? && Whole(fields, current).bits <= s
  {
    StateIsRecord(fields, Items(current));
    ReadsOnlyWritten(Tuple(fields), s);
    var whole := Emit(Tuple(fields), Items(current));
    if whole.r.Pass? && whole.bits <= s {
      assert s == whole.bits + s[|whole.bits|..];
      RoundTrip(Tuple(fields), Items(current), s[|whole.bits|..]);
    }
    hide Emit, Parse, IsState;
  }

  /** A whole state that fits its fields can be written. */
  lemma {:induction false} FittingParts(fields: seq<Schema>, s: Snapshot, n: nat)
    requires FitsLayout(fields, s) && n <= |s| && PartsHaveShape(Tuple(fields), s, n)
    ensures PartsFit(Tuple(fields), s, n)
  {
    hide HasShape, Fits;
    if n > 0 {
      FittingParts(fields, s, n - 1);
      assert Part(Tuple(fields), n - 1) == fields[n - 1];
    }
  }

  lemma FittingWhole(fields: seq<Schema>, s: Snapshot)
    requires IsLayout(fields) && FitsLayout(fields, s)
    ensures Whole(fields, s).r.Pass?
  {
    StateIsRecord(fields, Items(s));
    FittingParts(fields, s, |s|);
    WritesIffFits(Tuple(fields), Items(s));
  }

  lemma FittingDifference(fields: seq<Schema>, current: Snapshot, base: Snapshot)
    requires IsLayout(fields) && FitsLayout(fields, current) && IsState(fields, base)
    ensures IsDelta(fields, Diff(current, base)) && EmitDelta(fields, Diff(current, base)).r.Pass?
  {
    DiffThenApply(fields, current, base);
    var d := Diff(current, base);
    assert forall i :: 0 <= i < |fields| && d[i].Some? ==> Fits(fields[i], d[i].value);
    FittingDelta(fields, d);
  }

  function PadOf(bits: BitString): BitString { Zeros((8 - |bits| % 8) % 8) }

  function BytesOf(bits: BitString): Bytes { Packed(bits + PadOf(bits)) }

  lemma BytesOfBits(bits: BitString)
    ensures Padded(bits, BytesOf(bits))
  {
    PackedBits(bits + PadOf(bits));
  }

  function Against(fields: seq<Schema>, base: Snapshot, current: Snapshot): Output
    requires IsLayout(fields) && IsState(fields, base) && IsState(fields, current)
  {
    Payload(fields, Some((NO_BASELINE, base)), current)
  }

  /** A state sent under a number, then stored, then acknowledged, and the next
      state sent against it. */
  function Sent(n: nat, base: Snapshot, bytes: Bytes): Link {
    Link(Tracker([(S.Wrap(n), base)], None), [], map[n := base], map[n := bytes], map[n := None], {}, [n], None, [])
  }

  function StoredThere(n: nat, base: Snapshot, bytes: Bytes): Link {
    Sent(n, base, bytes).(snapshots := [(S.Wrap(n), base, 0)], snapshotNos := [n], stored := {n})
  }

  function Confirmed(n: nat, base: Snapshot, bytes: Bytes): Link {
    StoredThere(n, base, bytes).(
      tracker := Tracker([], Some((S.Wrap(n), base))), pendingNos := [], confirmedNo := Some(n))
  }

  function SentNext(n: nat, base: Snapshot, bytes: Bytes, current: Snapshot, next: Bytes): Link {
    Confirmed(n, base, bytes).(
      tracker := Tracker([(S.Wrap(n + 1), current)], Some((S.Wrap(n), base))),
      history := map[n := base, n + 1 := current],
      data := map[n := bytes, n + 1 := next],
      baseOf := map[n := None, n + 1 := Some(n)],
      pendingNos := [n + 1])
  }

  lemma SendsFirst(c: Config, n: nat, base: Snapshot, bytes: Bytes)
    requires IsLayout(c.fields) && FitsLayout(c.fields, base) && Padded(Payload(c.fields, None, base).bits, bytes)
    ensures Step(c, NEW_LINK, Encode(n, base, bytes), Sent(n, base, bytes))
  {
    FittingWhole(c.fields, base);
    hide Padded, FitsLayout, S.Wrap;
  }

  lemma StoresFirst(c: Config, n: nat, base: Snapshot, bytes: Bytes)
    requires IsLayout(c.fields) && FitsLayout(c.fields, base) && Padded(Payload(c.fields, None, base).bits, bytes)
    ensures Step(c, Sent(n, base, bytes), Deliver(n, 0), StoredThere(n, base, bytes))
  {
    assert AllStates(c.fields, []);
    AreStatesToo(c, base);
    hide FitsLayout, IsState, Decoded, IsLayout;
    FittingWhole(c.fields, base);
    WholeDecodes(c.fields, base, PadOf(Payload(c.fields, None, base).bits), bytes, []);
    hide Emit, Payload, Padded;
    Delivered(c, n, base, bytes);
  }

  lemma Delivered(c: Config, n: nat, base: Snapshot, bytes: Bytes)
    requires IsLayout(c.fields) && AllStates(c.fields, []) && Decoded(c.fields, bytes, []) == Success(base)
    ensures Step(c, Sent(n, base, bytes), Deliver(n, 0), StoredThere(n, base, bytes))
  {
    PushesFirst(c.maxSnapshots, c.timeout, n, base);
    hide Decoded, IsLayout, AllStates, Pushed, Encodes, Acks, S.Wrap;
    var l, l' := Sent(n, base, bytes), StoredThere(n, base, bytes);
    assert l.snapshots == [] && l.data[n] == bytes && l'.stored == {} + {n};
    assert LastOf([] + [n], 1) == [n];
    assert Delivers(c, l, n, 0, l');
  }

  lemma PushesFirst(maxSnapshots: nat, timeout: nat, n: nat, state: Snapshot)
    ensures Pushed([], maxSnapshots, timeout, S.Wrap(n), state, 0) == [(S.Wrap(n), state, 0)]
  {
  }

  lemma ConfirmsFirst(c: Config, n: nat, base: Snapshot, bytes: Bytes)
    requires IsLayout(c.fields)
    ensures Step(c, StoredThere(n, base, bytes), Ack(n), Confirmed(n, base, bytes))
  {
    hide S.Wrap;
    var pending: seq<Numbered> := [(S.Wrap(n), base)];
    assert pending[..0] + pending[1..] == [];
    assert FirstAt(pending, S.Wrap(n)) == 0 && Position([n], n) == 0;
  }

  lemma SendsNext(c: Config, n: nat, base: Snapshot, bytes: Bytes, current: Snapshot, next: Bytes)
    requires IsLayout(c.fields) && FitsLayout(c.fields, base) && FitsLayout(c.fields, current)
    requires Padded(Payload(c.fields, Some((S.Wrap(n), base)), current).bits, next)
    ensures Step(c, Confirmed(n, base, bytes), Encode(n + 1, current, next), SentNext(n, base, bytes, current, next))
  {
    FittingDifference(c.fields, current, base);
    hide Padded, FitsLayout, S.Wrap;
    var l := Confirmed(n, base, bytes);
    assert l.history[n + 1 := current] == map[n := base, n + 1 := current];
    assert l.data[n + 1 := next] == map[n := bytes, n + 1 := next];
    assert l.baseOf[n + 1 := Some(n)] == map[n := None, n + 1 := Some(n)];
  }

  lemma LastDecodes(c: Config, base: Snapshot, bytes: Bytes, current: Snapshot, next: Bytes)
    requires IsLayout(c.fields) && FitsLayout(c.fields, base) && FitsLayout(c.fields, current)
    requires Padded(Against(c.fields, base, current).bits, next)
    ensures var l := SentNext(65535, base, bytes, current, next);
      && AllStates(c.fields, l.snapshots)
      && (Decoded(c.fields, l.data[65536], l.snapshots) == Success(current)
          <==> BeginsWhole(c.fields, base, current, PadOf(Against(c.fields, base, current).bits)))
  {
    FittingDifference(c.fields, current, base);
    var l := SentNext(65535, base, bytes, current, next);
    hide Decoded, BeginsWhole, FitsLayout, EmitDelta;
    SentinelDecodesIff(c.fields, base, current, PadOf(Against(c.fields, base, current).bits), next, l.snapshots);
  }

  /** A run that comes to it: a state under number 65535 is sent, stored and
      acknowledged; the next one, sent against it, decodes if and only if its
      difference begins with the whole state. */
  lemma SentinelRun(c: Config, base: Snapshot, current: Snapshot) returns (run: seq<Link>, events: seq<Event>)
    requires IsLayout(c.fields) && FitsLayout(c.fields, base) && FitsLayout(c.fields, current)
    ensures AreSteps(c, run, events) && |events| == 4 && events[3].Encode? && events[3].state == current
    ensures var l, n := run[4], events[3].n;
      && n in l.data && AllStates(c.fields, l.snapshots)
      && (Decoded(c.fields, l.data[n], l.snapshots) == Success(current)
          <==> BeginsWhole(c.fields, base, current, PadOf(Against(c.fields, base, current).bits)))
  {
    hide *;
    AreStatesToo(c, base);
    AreStatesToo(c, current);
    var b := BytesOf(Payload(c.fields, None, base).bits);
    var d := BytesOf(Against(c.fields, base, current).bits);
    BytesOfBits(Payload(c.fields, None, base).bits);
    BytesOfBits(Against(c.fields, base, current).bits);
    SendsFirst(c, 65535, base, b);
    StoresFirst(c, 65535, base, b);
    ConfirmsFirst(c, 65535, base, b);
    AgainstIs(c.fields, base, current);
    SendsNext(c, 65535, base, b, current, d);
    var e1, e2, e3, e4 := Encode(65535, base, b), Deliver(65535, 0), Ack(65535), Encode(65536, current, d);
    run := [NEW_LINK, Sent(65535, base, b), StoredThere(65535, base, b), Confirmed(65535, base, b),
            SentNext(65535, base, b, current, d)];
    events := [e1, e2, e3, e4];
    FourSteps(c, run, e1, e2, e3, e4);
    LastDecodes(c, base, b, current, d);
    HoldsNext(base, b, current, d);
  }

  lemma AgainstIs(fields: seq<Schema>, base: Snapshot, current: Snapshot)
    requires IsLayout(fields) && IsState(fields, base) && IsState(fields, current)
    ensures Against(fields, base, current) == Payload(fields, Some((S.Wrap(65535), base)), current)
  {
  }

  lemma AreStatesToo(c: Config, s: Snapshot)
    requires FitsLayout(c.fields, s)
    ensures IsState(c.fields, s)
  {
  }

  lemma HoldsNext(base: Snapshot, bytes: Bytes, current: Snapshot, next: Bytes)
    ensures 65536 in SentNext(65535, base, bytes, current, next).data
  {
  }

  lemma FourSteps(c: Config, run: seq<Link>, e1: Event, e2: Event, e3: Event, e4: Event)
    requires IsLayout(c.fields) && |run| == 5 && run[0] == NEW_LINK
    requires Step(c, run[0], e1, run[1]) && Step(c, run[1], e2, run[2])
    requires Step(c, run[2], e3, run[3]) && Step(c, run[3], e4, run[4])
    ensures AreSteps(c, run, [e1, e2, e3, e4])
  {
    hide Step;
  }

  /** It does not for two one-bit fields that stay set: they come back clear. */
  lemma SentinelNumberMisleads(bytes: Bytes, snapshots: seq<Stored>)
    requires var fields, state := [UInt(1), UInt(1)], [Num(1), Num(1)];
      && IsLayout(fields) && IsState(fields, state) && AllStates(fields, snapshots)
      && Padded(Against(fields, state, state).bits, bytes)
    ensures Decoded([UInt(1), UInt(1)], bytes, snapshots) == Success([Num(0), Num(0)])
    ensures var fields, state := [UInt(1), UInt(1)], [Num(1), Num(1)];
      !BeginsWhole(fields, state, state, PadOf(Against(fields, state, state).bits))
  {
    var fields, state: Snapshot := [UInt(1), UInt(1)], [Num(1), Num(1)];
    NothingChanged(fields, Diff(state, state));
    hide AllBits, BigEndian, Zeros, Decoded, EmitDelta, IsLayout, AllStates, BeginsWhole;
    assert AllBits(bytes) == BigEndian(NO_BASELINE, BASELINE_SEQ_BITS) + [false, false] + Zeros(6);
    ReadWhole(fields, bytes, [false, false] + Zeros(6), snapshots);
    SentinelDecodesIff(fields, state, state, PadOf(Against(fields, state, state).bits), bytes, snapshots);
  }

  /** After the sentinel the rest is taken for a whole state. */
  lemma ReadWhole(fields: seq<Schema>, bytes: Bytes, body: BitString, snapshots: seq<Stored>)
    requires IsLayout(fields) && AllStates(fields, snapshots) && fields == [UInt(1), UInt(1)]
    requires |body| >= 2 && !body[0] && !body[1]
    requires AllBits(bytes) == BigEndian(NO_BASELINE, BASELINE_SEQ_BITS) + [false, false] + Zeros(6)
    requires body == [false, false] + Zeros(6)
    ensures Decoded(fields, bytes, snapshots) == Success([Num(0), Num(0)])
  {
    NumberFirst(NO_BASELINE, [false, false], Zeros(6));
    ClearPair(body);
    hide AllBits, TakeNumber, BigEndian, Zeros, Parse, AllStates, Bits.Pow2;
    ReadsOnlyWritten(Tuple(fields), body);
  }

  lemma NothingChanged(fields: seq<Schema>, d: Delta)
    requires fields == [UInt(1), UInt(1)] && d == [None, None]
    ensures IsDelta(fields, d) && EmitDelta(fields, d) == Output([false, false], Pass)
  {
    assert MaskOf(d, 1) == MaskOf(d, 0) == 0;
    assert EmitFields(fields, d, 1) == EmitFields(fields, d, 0) == Output([], Pass);
    assert MaskOf(d, 2) == 0 && EmitFields(fields, d, 2) == Output([], Pass);
    Bits.ZeroBits(0);
    Bits.ZeroBits(1);
    assert BigEndian(0, 2) == [false, false];
    assert [false, false] + [] == [false, false];
  }

  lemma ClearPair(s: BitString)
    requires |s| >= 2 && !s[0] && !s[1]
    ensures WellFormed(Tuple([UInt(1), UInt(1)]))
    ensures Parse(Tuple([UInt(1), UInt(1)]), s) == Success(Parsed(Items([Num(0), Num(0)]), s[2..]))
  {
    OneClearBit(s);
    OneClearBit(s[1..]);
    hide TakeNumber;
    assert s[1..][1..] == s[2..];
    assert [] + [Num(0)] == [Num(0)] && [Num(0)] + [Num(0)] == [Num(0), Num(0)];
    var schema := Tuple([UInt(1), UInt(1)]);
    assert ParseParts(schema, s, 0) == Success(Parsed([], s));
    assert ParseParts(schema, s, 1) == Success(Parsed([Num(0)], s[1..]));
    assert ParseParts(schema, s, 2) == Success(Parsed([Num(0), Num(0)], s[2..]));
  }

  lemma OneClearBit(s: BitString)
    requires s != [] && !s[0]
    ensures TakeNumber(s, 1) == Success(Parsed(0, s[1..]))
  {
    assert s[..1] == [false];
    assert FromBits([false]) == 0 by { assert [false][..0] == []; }
  }
}
