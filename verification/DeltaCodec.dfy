/** Deltas between snapshots: which fields changed, as a bit mask, and their new
    values. This is what the derive macro generates, over any list of fields. */
module DeltaCodec {
  import opened Wrappers
  import opened Bits
  import opened BitIo
  import opened Codec

  type Snapshot = seq<Value>
  type Delta = seq<Option<Value>>

  /** The mask is a 64-bit word, so there can be no more fields than that. */
  predicate IsLayout(fields: seq<Schema>) {
    |fields| <= 64 && forall i :: 0 <= i < |fields| ==> WellFormed(fields[i])
  }

  predicate IsState(fields: seq<Schema>, s: Snapshot) {
    |s| == |fields| && forall i :: 0 <= i < |fields| ==> HasShape(fields[i], s[i])
  }

  predicate IsDelta(fields: seq<Schema>, d: Delta) {
    |d| == |fields| && forall i :: 0 <= i < |fields| && d[i].Some? ==> HasShape(fields[i], d[i].value)
  }

  function Diff(current: Snapshot, baseline: Snapshot): (d: Delta)
    requires |baseline| == |current|
  {
    seq(|current|, i requires 0 <= i < |current| => if current[i] != baseline[i] then Some(current[i]) else None)
  }

  function Applied(state: Snapshot, d: Delta): (s: Snapshot)
    requires |d| == |state|
  {
    seq(|state|, i requires 0 <= i < |state| => if d[i].Some? then d[i].value else state[i])
  }

  method Apply(state: Snapshot, d: Delta) returns (s: Snapshot)
    requires |d| == |state|
    ensures s == Applied(state, d)
  {
    s := state;
    for i := 0 to |d|
      invariant |s| == |state|
      invariant forall j :: 0 <= j < |s| ==> s[j] == if j < i && d[j].Some? then d[j].value else state[j]
    {
      if d[i].Some? { s := s[i := d[i].value]; }
    }
  }

  /** Applying the difference gives the current state, and nothing is sent of a
      field that has not changed. */
  lemma DiffThenApply(fields: seq<Schema>, current: Snapshot, baseline: Snapshot)
    requires IsState(fields, current) && IsState(fields, baseline)
    ensures IsDelta(fields, Diff(current, baseline)) && Applied(baseline, Diff(current, baseline)) == current
    ensures forall i :: 0 <= i < |fields| ==> (Diff(current, baseline)[i].None? <==> current[i] == baseline[i])
  {
    hide HasShape;
  }

  // ---------- the mask ----------

  function MaskOf(d: Delta, n: nat): nat
    requires n <= |d|
  {
    if n == 0 then 0
    else if d[n - 1].Some? then Or(MaskOf(d, n - 1), Shl(1, n - 1)) else MaskOf(d, n - 1)
  }

  lemma {:induction false} MaskBits(d: Delta, n: nat, i: nat)
    requires n <= |d|
    ensures TestBit(MaskOf(d, n), i) <==> i < n && d[i].Some?
  {
    if n == 0 {
      ZeroBits(i);
    } else {
      MaskBits(d, n - 1, i);
      OrBit(MaskOf(d, n - 1), Shl(1, n - 1), i);
      SingleBit(n - 1, i);
    }
  }

  lemma SingleBit(k: nat, i: nat)
    ensures TestBit(Shl(1, k), i) <==> i == k
  {
    ShlBit(1, k, i);
    if i > k { HighBitsZero(1, 1, i - k); }
  }

  lemma {:induction false} MaskBound(d: Delta, n: nat)
    requires n <= |d|
    ensures MaskOf(d, n) < Pow2(n)
  {
    if n > 0 {
      MaskBound(d, n - 1);
      ShlBound(1, n - 1, 1);
      OrBound(MaskOf(d, n - 1), Shl(1, n - 1), n);
    }
  }

  lemma MaskFits(d: Delta, n: nat)
    requires n <= |d| && n <= 64
    ensures MaskOf(d, n) < 0x1_0000_0000_0000_0000
  {
    MaskBound(d, n);
    Pow2Mono(n, 64);
    WordSizes();
  }

  // ---------- writing and reading ----------

  /** One changed field. Unlike a record's, its number is cut to its width
      without a check. */
  function EmitField(field: Schema, v: Value): Output
    requires HasShape(field, v)
  {
    if field.UInt? then Output(BigEndian(v.n, field.bits), Pass) else Emit(field, v)
  }

  function EmitFields(fields: seq<Schema>, d: Delta, n: nat): Output
    requires IsDelta(fields, d) && n <= |d|
  {
    if n == 0 then Output([], Pass)
    else if d[n - 1].Some? then Then(EmitFields(fields, d, n - 1), EmitField(fields[n - 1], d[n - 1].value))
    else EmitFields(fields, d, n - 1)
  }

  function EmitDelta(fields: seq<Schema>, d: Delta): Output
    requires IsDelta(fields, d)
  {
    Then(Output(BigEndian(MaskOf(d, |d|), |d|), Pass), EmitFields(fields, d, |d|))
  }

  function ParseFields(fields: seq<Schema>, mask: nat, s: BitString, n: nat): (r: Result<Parsed<Delta>, IoError>)
    requires IsLayout(fields) && n <= |fields|
    ensures r.Success? ==> |r.value.value| == n
  {
    if n == 0 then Success(Parsed([], s))
    else
      var p :- ParseFields(fields, mask, s, n - 1);
      if TestBit(mask, n - 1) then
        var q :- Parse(fields[n - 1], p.rest);
        Success(Parsed(p.value + [Some(q.value)], q.rest))
      else Success(Parsed(p.value + [None], p.rest))
  }

  function ParseDelta(fields: seq<Schema>, s: BitString): (r: Result<Parsed<Delta>, IoError>)
    requires IsLayout(fields)
    ensures r.Success? ==> |r.value.value| == |fields|
  {
    var p :- TakeNumber(s, |fields|);
    ParseFields(fields, p.value, p.rest, |fields|)
  }

  method SerializeDelta(fields: seq<Schema>, d: Delta, writer: BitBuffer) returns (r: Outcome<IoError>)
    requires IsLayout(fields) && IsDelta(fields, d) && writer.WriterValid()
    modifies writer`buffer, writer`bitPos, writer`unpaddedLength
    ensures r == EmitDelta(fields, d).r
    ensures writer.Appended(old(writer.bitPos), old(writer.SoFar()), EmitDelta(fields, d).bits)
  {
    hide Slice, ZeroFrom, BigEndian, Emit, HasShape, WellFormed, TestBit, Or, Shl, Pow2;
    var bitmask: nat := 0;
    for i := 0 to |d|
      invariant bitmask == MaskOf(d, i)
    {
      if d[i].Some? { bitmask := Or(bitmask, Shl(1, i)); }
    }
    MaskFits(d, |d|);
    r := writer.WriteBits(bitmask, |d|);
    ghost var mask := BigEndian(bitmask, |d|);
    ghost var from, before := old(writer.bitPos), old(writer.SoFar());
    assert mask + [] == mask;
    for i := 0 to |d|
      invariant r == EmitFields(fields, d, i).r == Pass
      invariant writer.Appended(from, before, mask + EmitFields(fields, d, i).bits)
    {
      if d[i].Some? {
        assert HasShape(fields[i], d[i].value) && WellFormed(fields[i]);
        ghost var so := EmitFields(fields, d, i).bits;
        r := SerializeField(fields[i], d[i].value, writer);
        ghost var next := EmitField(fields[i], d[i].value).bits;
        Regroup(before, mask, so, next);
        if r.Fail? {
          FieldFailureStops(fields, d, i + 1, |d|);
          return;
        }
      }
    }
  }

  lemma Regroup(a: BitString, b: BitString, c: BitString, d: BitString)
    ensures (a + (b + c)) + d == a + (b + (c + d))
  {
  }

  method SerializeField(field: Schema, v: Value, writer: BitBuffer) returns (r: Outcome<IoError>)
    requires WellFormed(field) && HasShape(field, v) && writer.WriterValid()
    modifies writer`buffer, writer`bitPos, writer`unpaddedLength
    ensures r == EmitField(field, v).r
    ensures writer.Appended(old(writer.bitPos), old(writer.SoFar()), EmitField(field, v).bits)
  {
    hide Slice, ZeroFrom, BigEndian, Emit;
    if field.UInt? {
      r := writer.WriteBits(v.n, field.bits);
    } else {
      r := BitSerialize(field, v, writer);
    }
  }

  lemma {:induction false} FieldFailureStops(fields: seq<Schema>, d: Delta, k: nat, n: nat)
    requires IsDelta(fields, d) && k <= n <= |d| && EmitFields(fields, d, k).r.Fail?
    ensures EmitFields(fields, d, n) == EmitFields(fields, d, k)
    decreases n
  {
    hide EmitField, HasShape;
    if k < n { FieldFailureStops(fields, d, k, n - 1); }
  }

  method DeserializeDelta(fields: seq<Schema>, reader: BitBuffer) returns (r: Result<Delta, IoError>)
    requires IsLayout(fields) && reader.ReaderValid()
    modifies reader`readPos
    ensures reader.ReaderValid()
    ensures match ParseDelta(fields, old(reader.Unread()))
            case Success(p) => r == Success(p.value) && reader.Unread() == p.rest
            case Failure(e) => r == Failure(e)
  {
    hide Slice, AllBits, BitBuffer.ReaderValid, BitBuffer.Unread, FromBits, Parse, WellFormed, ParseFields, Shl, And;
    var bitmask :- reader.ReadBits(|fields|);
    ghost var s := reader.Unread();
    var d: Delta := [];
    FieldsStart(fields, bitmask, s);
    {
      hide *;
      for i := 0 to |fields|
        invariant reader.ReaderValid()
        invariant ParseFields(fields, bitmask, s, i) == Success(Parsed(d, reader.Unread()))
      {
        NextField(fields, bitmask, s, i, d, reader.Unread());
        if And(bitmask, Shl(1, i)) != 0 {
          var v := BitDeserialize(fields[i], reader);
          if v.Failure? { return Failure(v.error); }
          d := d + [Some(v.value)];
        } else {
          d := d + [None];
        }
      }
    }
    r := Success(d);
  }

  lemma FieldsStart(fields: seq<Schema>, mask: nat, s: BitString)
    requires IsLayout(fields)
    ensures ParseFields(fields, mask, s, 0) == Success(Parsed([], s))
  {
  }

  lemma NextField(fields: seq<Schema>, mask: nat, s: BitString, i: nat, d: Delta, rest: BitString)
    requires IsLayout(fields) && i < |fields| && ParseFields(fields, mask, s, i) == Success(Parsed(d, rest))
    ensures WellFormed(fields[i])
    ensures
      if And(mask, Shl(1, i)) == 0 then ParseFields(fields, mask, s, i + 1) == Success(Parsed(d + [None], rest))
      else
        match Parse(fields[i], rest)
        case Success(p) => ParseFields(fields, mask, s, i + 1) == Success(Parsed(d + [Some(p.value)], p.rest))
        case Failure(e) => ParseFields(fields, mask, s, |fields|) == Failure(e)
  {
    TestSingleBit(mask, i);
    hide Parse, WellFormed, TestBit, And, Shl;
    if ParseFields(fields, mask, s, i + 1).Failure? { UnreadableFieldStops(fields, mask, s, i + 1, |fields|); }
  }

  lemma {:induction false} UnreadableFieldStops(fields: seq<Schema>, mask: nat, s: BitString, k: nat, n: nat)
    requires IsLayout(fields) && k <= n <= |fields| && ParseFields(fields, mask, s, k).Failure?
    ensures ParseFields(fields, mask, s, n) == Failure(ParseFields(fields, mask, s, k).error)
    decreases n
  {
    hide Parse, WellFormed, TestBit;
    if k < n { UnreadableFieldStops(fields, mask, s, k, n - 1); }
  }

  // ---------- round trip ----------

  lemma ModBelow(n: nat, m: nat)
    requires m > 0
    ensures n % m <= n
  {
    if n < m { assert n % m == n; }
  }

  /** What is left of a value once written as a changed field. */
  function Kept(field: Schema, v: Value): Value {
    if field.UInt? && v.Num? then
      ModBelow(v.n, Pow2(field.bits));
      Num(v.n % Pow2(field.bits))
    else v
  }

  function KeptDelta(fields: seq<Schema>, d: Delta): (k: Delta)
    requires |d| == |fields|
    ensures |k| == |d|
  {
    seq(|d|, i requires 0 <= i < |d| => if d[i].Some? then Some(Kept(fields[i], d[i].value)) else None)
  }

  lemma FieldReadsBack(field: Schema, v: Value, suffix: BitString)
    requires WellFormed(field) && HasShape(field, v) && EmitField(field, v).r.Pass?
    ensures Parse(field, EmitField(field, v).bits + suffix) == Success(Parsed(Kept(field, v), suffix))
  {
    if field.UInt? {
      var m := v.n % Pow2(field.bits);
      ModBelow(v.n, Pow2(field.bits));
      OnlyLowBitsCount(v.n, field.bits);
      TakesWritten(m, field.bits, suffix);
      hide Pow2, BigEndian, TakeNumber;
    } else {
      RoundTrip(field, v, suffix);
      hide Emit, Parse;
    }
  }

  lemma {:induction false} FieldsReadBack(fields: seq<Schema>, d: Delta, mask: nat, n: nat, suffix: BitString)
    requires IsLayout(fields) && IsDelta(fields, d) && n <= |d| && EmitFields(fields, d, n).r.Pass?
    requires forall i: nat :: i < n ==> (TestBit(mask, i) <==> d[i].Some?)
    ensures ParseFields(fields, mask, EmitFields(fields, d, n).bits + suffix, n)
         == Success(Parsed(KeptDelta(fields, d)[..n], suffix))
  {
    hide Parse, Emit, EmitField, TestBit, Kept, WellFormed, HasShape;
    if n == 0 {
      assert [] + suffix == suffix;
    } else {
      assert TestBit(mask, n - 1) <==> d[n - 1].Some?;
      var kept := KeptDelta(fields, d);
      assert kept[..n - 1] + [kept[n - 1]] == kept[..n];
      if d[n - 1].Some? {
        var front, last := EmitFields(fields, d, n - 1).bits, EmitField(fields[n - 1], d[n - 1].value).bits;
        FieldsReadBack(fields, d, mask, n - 1, last + suffix);
        assert WellFormed(fields[n - 1]) && HasShape(fields[n - 1], d[n - 1].value);
        FieldReadsBack(fields[n - 1], d[n - 1].value, suffix);
        AppendedTwice(front, last, suffix);
      } else {
        FieldsReadBack(fields, d, mask, n - 1, suffix);
      }
    }
  }

  /** A delta reads back with each number cut to its width, whatever follows. */
  lemma DeltaReadsBack(fields: seq<Schema>, d: Delta, suffix: BitString)
    requires IsLayout(fields) && IsDelta(fields, d) && EmitDelta(fields, d).r.Pass?
    ensures ParseDelta(fields, EmitDelta(fields, d).bits + suffix) == Success(Parsed(KeptDelta(fields, d), suffix))
  {
    var n, mask := |d|, MaskOf(d, |d|);
    forall i: nat | i < n ensures TestBit(mask, i) <==> d[i].Some? { MaskBits(d, n, i); }
    MaskBound(d, n);
    var body := EmitFields(fields, d, n).bits;
    hide Pow2, MaskOf, TestBit, EmitFields, ParseFields, TakeNumber, BigEndian, KeptDelta;
    PrefixedNumber(mask, n, body, suffix);
    FieldsReadBack(fields, d, mask, n, suffix);
    assert KeptDelta(fields, d)[..n] == KeptDelta(fields, d);
  }

  /** So it reads back unchanged just when every changed number fits its width;
      one that does not comes back as another number, with no error. */
  lemma DeltaRoundTripIff(fields: seq<Schema>, d: Delta, suffix: BitString)
    requires IsLayout(fields) && IsDelta(fields, d) && EmitDelta(fields, d).r.Pass?
    ensures ParseDelta(fields, EmitDelta(fields, d).bits + suffix) == Success(Parsed(d, suffix))
       <==> forall i :: 0 <= i < |fields| && d[i].Some? && fields[i].UInt? ==> d[i].value.n < Pow2(fields[i].bits)
  {
    DeltaReadsBack(fields, d, suffix);
    hide EmitDelta, ParseDelta;
    var kept := KeptDelta(fields, d);
    forall i | 0 <= i < |fields|
      ensures kept[i] == d[i] <==> (d[i].Some? && fields[i].UInt? ==> d[i].value.n < Pow2(fields[i].bits))
    {
      if d[i].Some? && fields[i].UInt? {
        assert HasShape(fields[i], d[i].value);
        CutIff(d[i].value.n, Pow2(fields[i].bits));
      }
    }
    hide KeptDelta, HasShape, Pow2;
    assert kept == d <==> forall i :: 0 <= i < |fields| ==> kept[i] == d[i];
  }

  lemma CutIff(n: nat, m: nat)
    requires m > 0
    ensures n % m == n <==> n < m
  {
  }

  /** A state whose fields fit can be written, whole or as a difference. */
  lemma FittingDelta(fields: seq<Schema>, d: Delta)
    requires IsLayout(fields) && IsDelta(fields, d)
    requires forall i :: 0 <= i < |fields| && d[i].Some? ==> Fits(fields[i], d[i].value)
    ensures EmitDelta(fields, d).r.Pass? && KeptDelta(fields, d) == d
  {
    FittingFields(fields, d, |d|);
    var kept := KeptDelta(fields, d);
    forall i | 0 <= i < |fields| ensures kept[i] == d[i] {
      if d[i].Some? && fields[i].UInt? { CutIff(d[i].value.n, Pow2(fields[i].bits)); }
    }
  }

  lemma {:induction false} FittingFields(fields: seq<Schema>, d: Delta, n: nat)
    requires IsLayout(fields) && IsDelta(fields, d) && n <= |d|
    requires forall i :: 0 <= i < |fields| && d[i].Some? ==> Fits(fields[i], d[i].value)
    ensures EmitFields(fields, d, n).r.Pass?
  {
    if n > 0 {
      FittingFields(fields, d, n - 1);
      if d[n - 1].Some? { WritesIffFits(fields[n - 1], d[n - 1].value); }
      hide Emit, Fits, HasShape;
    }
  }
}
