/** Both ends of delta compression: the sender's snapshots awaiting an
    acknowledgement, and the receiver's ring of baselines. */
module DeltaBaselines {
  import opened Wrappers
  import SequenceNumbers
  import Bits
  import opened BitIo
  import opened Codec
  import opened DeltaCodec

  /** The number that stands for no baseline at all. */
  const NO_BASELINE: u16 := 65535
  const BASELINE_SEQ_BITS := 16

  type Numbered = (u16, Snapshot)
  type Stored = (u16, Snapshot, Instant)

  // ---------- states as records ----------

  lemma {:induction false} PartsOfState(fields: seq<Schema>, s: Snapshot, n: nat)
    requires |s| == |fields| && n <= |s|
    ensures PartsHaveShape(Tuple(fields), s, n) <==> forall i :: 0 <= i < n ==> HasShape(fields[i], s[i])
  {
    hide HasShape;
    if n > 0 {
      PartsOfState(fields, s, n - 1);
      assert Part(Tuple(fields), n - 1) == fields[n - 1];
    }
  }

  /** A state is written whole as the record of its fields. */
  lemma StateIsRecord(fields: seq<Schema>, v: Value)
    ensures HasShape(Tuple(fields), v) <==> v.Items? && IsState(fields, v.items)
  {
    hide PartsHaveShape;
    if v.Items? && |v.items| == |fields| { PartsOfState(fields, v.items, |fields|); }
  }

  // ---------- the sender ----------

  datatype Tracker = Tracker(pending: seq<Numbered>, confirmed: Option<Numbered>)

  predicate GoodTracker(fields: seq<Schema>, t: Tracker) {
    && (forall i :: 0 <= i < |t.pending| ==> IsState(fields, t.pending[i].1))
    && (t.confirmed.Some? ==> IsState(fields, t.confirmed.value.1))
  }

  /** What goes on the wire: the baseline's number and the difference from it,
      or the sentinel and the whole state. */
  function Payload(fields: seq<Schema>, baseline: Option<Numbered>, current: Snapshot): Output
    requires IsLayout(fields) && IsState(fields, current) && (baseline.Some? ==> IsState(fields, baseline.value.1))
  {
    match baseline
    case Some((number, base)) =>
      DiffThenApply(fields, current, base);
      Then(Output(BigEndian(number, BASELINE_SEQ_BITS), Pass), EmitDelta(fields, Diff(current, base)))
    case None =>
      StateIsRecord(fields, Items(current));
      Then(Output(BigEndian(NO_BASELINE, BASELINE_SEQ_BITS), Pass), Emit(Tuple(fields), Items(current)))
  }

  function Remembered(t: Tracker, maxPending: nat, number: u16, current: Snapshot): Tracker {
    var kept := if |t.pending| >= maxPending && t.pending != [] then t.pending[1..] else t.pending;
    t.(pending := kept + [(number, current)])
  }

  /** Where the number first stands, or the length if it does not. */
  function FirstAt(pending: seq<Numbered>, number: u16): (p: nat)
    ensures p <= |pending|
  {
    if pending == [] || pending[0].0 == number then 0 else 1 + FirstAt(pending[1..], number)
  }

  function DropOlder(pending: seq<Numbered>, number: u16): seq<Numbered> {
    if pending != [] && SequenceNumbers.Diff(pending[0].0, number) < 0 then DropOlder(pending[1..], number) else pending
  }

  function Acknowledged(t: Tracker, number: u16): Tracker {
    var p := FirstAt(t.pending, number);
    if p == |t.pending| then t
    else Tracker(DropOlder(t.pending[..p] + t.pending[p + 1..], t.pending[p].0), Some(t.pending[p]))
  }

  class DeltaTracker {
    const fields: seq<Schema>
    const maxPending: nat
    var pending: seq<Numbered>
    var confirmedBaseline: Option<Numbered>

    function Contents(): Tracker
      reads this
    {
      Tracker(pending, confirmedBaseline)
    }

    ghost predicate Valid()
      reads this
    {
      IsLayout(fields) && GoodTracker(fields, Contents())
    }

    constructor (fields: seq<Schema>, maxPending: nat)
      requires IsLayout(fields)
      ensures Valid() && this.fields == fields && this.maxPending == maxPending && Contents() == Tracker([], None)
    {
      this.fields, this.maxPending, pending, confirmedBaseline := fields, maxPending, [], None;
    }

    /** On an error nothing is remembered. */
    method Encode(number: u16, current: Snapshot) returns (r: Result<Bytes, IoError>)
      requires Valid() && IsState(fields, current)
      modifies this`pending
      ensures Valid()
      ensures
        var o := Payload(fields, old(confirmedBaseline), current);
        if o.r.Pass? then
          && r.Success? && AllBits(r.value) == o.bits + Zeros((8 - |o.bits| % 8) % 8)
          && Contents() == Remembered(old(Contents()), maxPending, number, current)
        else r == Failure(o.r.error) && Contents() == old(Contents())
    {
      var buf := new BitBuffer.New();
      var written := WritePayload(fields, confirmedBaseline, current, buf);
      if written.Fail? { return Failure(written.error); }
      if |pending| >= maxPending && pending != [] { pending := pending[1..]; }
      pending := pending + [(number, current)];
      hide IsLayout, Slice, ZeroFrom, Zeros, Payload, IsState;
      var bytes := buf.IntoBytes(true);
      return Success(bytes);
    }

    method OnAck(number: u16)
      requires Valid()
      modifies this
      ensures Valid() && Contents() == Acknowledged(old(Contents()), number)
    {
      var pos := 0;
      while pos < |pending| && pending[pos].0 != number
        invariant pos <= |pending| && FirstAt(pending, number) == pos + FirstAt(pending[pos..], number)
      {
        assert pending[pos..][1..] == pending[pos + 1..];
        pos := pos + 1;
      }
      hide IsLayout, IsState;
      if pos < |pending| {
        var (ackSeq, snapshot) := pending[pos];
        pending := pending[..pos] + pending[pos + 1..];
        confirmedBaseline := Some((ackSeq, snapshot));
        ghost var rest := pending;
        while pending != [] && SequenceNumbers.Diff(pending[0].0, ackSeq) < 0
          invariant DropOlder(pending, ackSeq) == DropOlder(rest, ackSeq)
              && confirmedBaseline == Some((ackSeq, snapshot))
          invariant forall i :: 0 <= i < |pending| ==> IsState(fields, pending[i].1)
          decreases |pending|
        {
          pending := pending[1..];
        }
      }
    }

    method Reset()
      requires Valid()
      modifies this
      ensures Valid() && Contents() == Tracker([], None)
    {
      pending, confirmedBaseline := [], None;
    }
  }

  /** Writes the payload to a new buffer. */
  method WritePayload(fields: seq<Schema>, baseline: Option<Numbered>, current: Snapshot, buf: BitBuffer)
    returns (r: Outcome<IoError>)
    requires IsLayout(fields) && IsState(fields, current) && (baseline.Some? ==> IsState(fields, baseline.value.1))
    requires buf.WriterValid() && !buf.measureOnly && buf.bitPos == 0 && buf.Written() == []
    modifies buf`buffer, buf`bitPos, buf`unpaddedLength
    ensures
      var o := Payload(fields, baseline, current);
      r == o.r && buf.WriterValid() && buf.Written() == o.bits && buf.bitPos == |o.bits|
  {
    hide Slice, ZeroFrom, BigEndian, Emit, EmitDelta, HasShape;
    match baseline
    case Some((number, base)) =>
      var delta := Diff(current, base);
      DiffThenApply(fields, current, base);
      r := buf.WriteBits(number, BASELINE_SEQ_BITS);
      r := SerializeDelta(fields, delta, buf);
    case None =>
      StateIsRecord(fields, Items(current));
      r := buf.WriteBits(NO_BASELINE, BASELINE_SEQ_BITS);
      r := BitSerialize(Tuple(fields), Items(current), buf);
  }

  // ---------- the receiver ----------

  predicate AllStates(fields: seq<Schema>, snapshots: seq<Stored>) {
    forall i :: 0 <= i < |snapshots| ==> IsState(fields, snapshots[i].1)
  }

  /** The state most recently stored under the number. */
  function Latest(snapshots: seq<Stored>, number: u16): Option<Snapshot> {
    if snapshots == [] then None
    else
      var last := snapshots[|snapshots| - 1];
      if last.0 == number then Some(last.1) else Latest(snapshots[..|snapshots| - 1], number)
  }

  function DropExpired(snapshots: seq<Stored>, timeout: nat, now: Instant): (kept: seq<Stored>)
    ensures |kept| <= |snapshots| && kept == snapshots[|snapshots| - |kept|..]
  {
    if snapshots != [] && Elapsed(now, snapshots[0].2) > timeout
    then DropExpired(snapshots[1..], timeout, now)
    else snapshots
  }

  function Pushed(snapshots: seq<Stored>, maxSnapshots: nat, timeout: nat, number: u16, state: Snapshot,
                  now: Instant): seq<Stored> {
    var live := DropExpired(snapshots, timeout, now);
    (if |live| >= maxSnapshots && live != [] then live[1..] else live) + [(number, state, now)]
  }

  class BaselineManager {
    var snapshots: seq<Stored>
    const maxSnapshots: nat
    const timeout: nat

    constructor (maxSnapshots: nat, timeout: nat)
      ensures snapshots == [] && this.maxSnapshots == maxSnapshots && this.timeout == timeout
    {
      snapshots, this.maxSnapshots, this.timeout := [], maxSnapshots, timeout;
    }

    method PushSnapshot(number: u16, state: Snapshot, now: Instant)
      modifies this
      ensures snapshots == Pushed(old(snapshots), maxSnapshots, timeout, number, state, now)
    {
      while snapshots != [] && Elapsed(now, snapshots[0].2) > timeout
        invariant DropExpired(snapshots, timeout, now) == DropExpired(old(snapshots), timeout, now)
        decreases |snapshots|
      {
        snapshots := snapshots[1..];
      }
      if |snapshots| >= maxSnapshots && snapshots != [] { snapshots := snapshots[1..]; }
      snapshots := snapshots + [(number, state, now)];
    }

    method GetBaseline(number: u16) returns (state: Option<Snapshot>)
      ensures state == Latest(snapshots, number)
    {
      var i := |snapshots|;
      assert snapshots[..i] == snapshots;
      while i > 0
        invariant i <= |snapshots| && Latest(snapshots[..i], number) == Latest(snapshots, number)
      {
        i := i - 1;
        assert snapshots[..i + 1][..i] == snapshots[..i];
        if snapshots[i].0 == number { return Some(snapshots[i].1); }
      }
      return None;
    }

    method Reset()
      modifies this
      ensures snapshots == []
    {
      snapshots := [];
    }
  }

  function Decoded(fields: seq<Schema>, data: Bytes, snapshots: seq<Stored>): Result<Snapshot, IoError>
    requires IsLayout(fields) && AllStates(fields, snapshots)
  {
    var b :- TakeNumber(AllBits(data), BASELINE_SEQ_BITS);
    if b.value == NO_BASELINE then
      ReadsOnlyWritten(Tuple(fields), b.rest);
      var p :- Parse(Tuple(fields), b.rest);
      Success(p.value.items)
    else
      SixteenBits(AllBits(data));
      LatestIsState(fields, snapshots, b.value);
      match Latest(snapshots, b.value)
      case None => Failure(InvalidData)
      case Some(baseline) =>
        var d :- ParseDelta(fields, b.rest);
        Success(Applied(baseline, d.value))
  }

  lemma SixteenBits(s: BitString)
    ensures TakeNumber(s, BASELINE_SEQ_BITS).Success? ==> TakeNumber(s, BASELINE_SEQ_BITS).value.value <= 65535
  {
    if BASELINE_SEQ_BITS <= |s| { FromBitsBound(s[..BASELINE_SEQ_BITS]); }
    Bits.WordSizes();
    hide Bits.Pow2;
  }

  lemma {:induction false} LatestIsState(fields: seq<Schema>, snapshots: seq<Stored>, number: u16)
    requires AllStates(fields, snapshots)
    ensures var found := Latest(snapshots, number);
      found.Some? ==> IsState(fields, found.value) && |found.value| == |fields|
  {
    hide HasShape;
    if snapshots != [] { LatestIsState(fields, snapshots[..|snapshots| - 1], number); }
  }

  method Decode(fields: seq<Schema>, data: Bytes, baselines: BaselineManager) returns (r: Result<Snapshot, IoError>)
    requires IsLayout(fields) && AllStates(fields, baselines.snapshots)
    ensures r == Decoded(fields, data, baselines.snapshots)
  {
    hide Slice, Parse, ParseDelta, Latest, FromBits, IsState, BitBuffer.Unread, BitBuffer.ReaderValid;
    var buf := new BitBuffer.FromBytes(data);
    SixteenBits(AllBits(data));
    var baseSeq :- buf.ReadBits(BASELINE_SEQ_BITS);
    if baseSeq == NO_BASELINE {
      ReadsOnlyWritten(Tuple(fields), buf.Unread());
      var v :- BitDeserialize(Tuple(fields), buf);
      return Success(v.items);
    }
    LatestIsState(fields, baselines.snapshots, baseSeq);
    var baseline := baselines.GetBaseline(baseSeq);
    if baseline.None? { return Failure(InvalidData); }
    var delta :- DeserializeDelta(fields, buf);
    var state := Apply(baseline.value, delta);
    return Success(state);
  }
}
