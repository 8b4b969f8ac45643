/** The structured bit codec: what every nesting of integers, flags, options,
    vectors, arrays, records and enumerations writes and reads. */
module Codec {
  import opened Wrappers
  import opened Bits
  import opened BitIo

  /** The type of a field, as the codec sees it. A tuple is also a record, field
      after field. */
  datatype Schema =
    | UInt(bits: nat)
    | Bool
    | Opt(some: Schema)
    | Vec(maxLen: u64, item: Schema)
    | Array(len: nat, elem: Schema)
    | Tuple(fields: seq<Schema>)
    | Enum(indexBits: nat, variants: seq<Schema>)

  datatype Value =
    | Num(n: u64)
    | Flag(b: bool)
    | Null
    | Just(some: Value)
    | Items(items: seq<Value>)
    | Variant(index: u64, body: Value)

  /** The longest vector where no other bound is given. */
  const DEFAULT_MAX_LEN: u64 := 65535

  /** The bits that a number up to `max` takes: 64 less its leading zeros. */
  function BitLength(max: nat): (n: nat) {
    if max == 0 then 0 else 1 + BitLength(max / 2)
  }

  lemma {:induction false} BitLengthBound(max: nat, n: nat)
    ensures max < Pow2(BitLength(max)) && (max < Pow2(n) ==> BitLength(max) <= n)
  {
    if max > 0 { BitLengthBound(max / 2, if n > 0 then n - 1 else 0); }
  }

  /** What the macros accept at compile time. */
  predicate WellFormed(schema: Schema) {
    match schema
    case UInt(bits) => 0 < bits <= 64
    case Bool => true
    case Opt(some) => WellFormed(some)
    case Vec(_, item) => WellFormed(item)
    case Array(_, elem) => WellFormed(elem)
    case Tuple(fields) => forall i :: 0 <= i < |fields| ==> WellFormed(fields[i])
    case Enum(indexBits, variants) =>
      indexBits <= 64 && |variants| <= Pow2(indexBits) && forall i :: 0 <= i < |variants| ==> WellFormed(variants[i])
  }

  predicate IsList(schema: Schema) { schema.Vec? || schema.Array? || schema.Tuple? }

  predicate HasLength(schema: Schema, n: nat)
    requires IsList(schema)
  {
    match schema
    case Vec(_, _) => true
    case Array(len, _) => n == len
    case Tuple(fields) => n == |fields|
  }

  predicate HasPart(schema: Schema, i: nat)
    requires IsList(schema)
  {
    schema.Tuple? ==> i < |schema.fields|
  }

  function Part(schema: Schema, i: nat): (part: Schema)
    requires IsList(schema) && HasPart(schema, i)
    ensures part < schema
    ensures WellFormed(schema) ==> WellFormed(part)
  {
    match schema
    case Vec(_, item) => item
    case Array(_, elem) => elem
    case Tuple(fields) => fields[i]
  }

  /** The value is of the type. */
  predicate HasShape(schema: Schema, v: Value)
    decreases schema, 1, 0
  {
    match schema
    case UInt(_) => v.Num?
    case Bool => v.Flag?
    case Opt(some) => v.Null? || (v.Just? && HasShape(some, v.some))
    case Enum(_, variants) => v.Variant? && v.index < |variants| && HasShape(variants[v.index], v.body)
    case _ => v.Items? && HasLength(schema, |v.items|) && PartsHaveShape(schema, v.items, |v.items|)
  }

  predicate PartsHaveShape(schema: Schema, vs: seq<Value>, n: nat)
    requires IsList(schema) && n <= |vs|
    decreases schema, 0, n
  {
    n > 0 ==> PartsHaveShape(schema, vs, n - 1) && HasPart(schema, n - 1) && HasShape(Part(schema, n - 1), vs[n - 1])
  }

  // ---------- writing ----------

  /** The bits written, and whether the writing then stopped with an error. */
  datatype Output = Output(bits: BitString, r: Outcome<IoError>)

  function Then(first: Output, next: Output): Output {
    if first.r.Fail? then first else Output(first.bits + next.bits, next.r)
  }

  function Emit(schema: Schema, v: Value): Output
    requires HasShape(schema, v)
    decreases schema, 1, 0
  {
    match schema
    case UInt(bits) =>
      if bits < 64 && v.n > Mask(bits) then Output([], Fail(InvalidData)) else Output(BigEndian(v.n, bits), Pass)
    case Bool => Output([v.b], Pass)
    case Opt(some) => if v.Just? then Then(Output([true], Pass), Emit(some, v.some)) else Output([false], Pass)
    case Enum(indexBits, variants) => Then(Output(BigEndian(v.index, indexBits), Pass), Emit(variants[v.index], v.body))
    case Vec(maxLen, _) =>
      if |v.items| > maxLen then Output([], Fail(InvalidData))
      else Then(Output(BigEndian(|v.items|, BitLength(maxLen)), Pass), EmitParts(schema, v.items, |v.items|))
    case _ => EmitParts(schema, v.items, |v.items|)
  }

  /** The first `n` parts, up to the first that fails. */
  function EmitParts(schema: Schema, vs: seq<Value>, n: nat): Output
    requires IsList(schema) && n <= |vs| && PartsHaveShape(schema, vs, n)
    decreases schema, 0, n
  {
    if n == 0 then Output([], Pass)
    else Then(EmitParts(schema, vs, n - 1), Emit(Part(schema, n - 1), vs[n - 1]))
  }

  // ---------- reading ----------

  /** A value read, and the bits after it. */
  datatype Parsed<+T> = Parsed(value: T, rest: BitString)

  function TakeNumber(s: BitString, n: nat): (r: Result<Parsed<u64>, IoError>)
    requires n <= 64
  {
    if n > |s| then Failure(UnexpectedEof)
    else
      NumberFits(s[..n]);
      Success(Parsed(FromBits(s[..n]), s[n..]))
  }

  lemma NumberFits(s: BitString)
    requires |s| <= 64
    ensures FromBits(s) < 0x1_0000_0000_0000_0000
  {
    FromBitsBound(s);
    Pow2Mono(|s|, 64);
    WordSizes();
  }

  function Parse(schema: Schema, s: BitString): (r: Result<Parsed<Value>, IoError>)
    requires WellFormed(schema)
    decreases schema, 1, 0
  {
    match schema
    case UInt(bits) =>
      var p :- TakeNumber(s, bits);
      Success(Parsed(Num(p.value), p.rest))
    case Bool =>
      if s == [] then Failure(UnexpectedEof) else Success(Parsed(Flag(s[0]), s[1..]))
    case Opt(some) =>
      if s == [] then Failure(UnexpectedEof)
      else if s[0] then
        var p :- Parse(some, s[1..]);
        Success(Parsed(Just(p.value), p.rest))
      else Success(Parsed(Null, s[1..]))
    case Enum(indexBits, variants) =>
      var p :- TakeNumber(s, indexBits);
      if p.value < |variants| then
        var q :- Parse(variants[p.value], p.rest);
        Success(Parsed(Variant(p.value, q.value), q.rest))
      else Failure(InvalidData)
    case Vec(maxLen, item) =>
      LengthBitsFit(maxLen);
      var p :- TakeNumber(s, BitLength(maxLen));
      if p.value > maxLen then Failure(InvalidData)
      else
        var q :- ParseParts(schema, p.rest, p.value);
        Success(Parsed(Items(q.value), q.rest))
    case Array(len, _) =>
      var q :- ParseParts(schema, s, len);
      Success(Parsed(Items(q.value), q.rest))
    case Tuple(fields) =>
      var q :- ParseParts(schema, s, |fields|);
      Success(Parsed(Items(q.value), q.rest))
  }

  function ParseParts(schema: Schema, s: BitString, n: nat): (r: Result<Parsed<seq<Value>>, IoError>)
    requires WellFormed(schema) && IsList(schema) && (schema.Tuple? ==> n <= |schema.fields|)
    ensures r.Success? ==> |r.value.value| == n
    decreases schema, 0, n
  {
    if n == 0 then Success(Parsed([], s))
    else
      var p :- ParseParts(schema, s, n - 1);
      var q :- Parse(Part(schema, n - 1), p.rest);
      Success(Parsed(p.value + [q.value], q.rest))
  }

  lemma LengthBitsFit(maxLen: u64)
    ensures BitLength(maxLen) <= 64
  {
    WordSizes();
    BitLengthBound(maxLen, 64);
  }

  lemma DefaultLengthBits()
    ensures BitLength(DEFAULT_MAX_LEN) == 16
  {
    WordSizes();
    BitLengthBound(DEFAULT_MAX_LEN, 16);
    if BitLength(DEFAULT_MAX_LEN) < 16 { Pow2Mono(BitLength(DEFAULT_MAX_LEN), 15); }
    assert Pow2(15) == 0x8000;
  }

  // ---------- the writer and the reader ----------

  method BitSerialize(schema: Schema, v: Value, writer: BitBuffer) returns (r: Outcome<IoError>)
    requires WellFormed(schema) && HasShape(schema, v) && writer.WriterValid()
    modifies writer`buffer, writer`bitPos, writer`unpaddedLength
    ensures r == Emit(schema, v).r
    ensures writer.Appended(old(writer.bitPos), old(writer.SoFar()), Emit(schema, v).bits)
    decreases schema, 1, 0
  {
    match schema
    case UInt(bits) =>
      if bits < 64 && v.n > Mask(bits) {
        NothingAppended(writer);
        return Fail(InvalidData);
      }
      r := writer.WriteBits(v.n, bits);
    case Bool =>
      writer.WriteBit(v.b);
      r := Pass;
    case Opt(some) =>
      writer.WriteBit(v.Just?);
      if v.Just? {
        r := BitSerialize(some, v.some, writer);
        AppendedTwice(old(writer.SoFar()), [true], Emit(some, v.some).bits);
      } else {
        r := Pass;
      }
    case Enum(indexBits, variants) =>
      r := writer.WriteBits(v.index, indexBits);
      r := BitSerialize(variants[v.index], v.body, writer);
      AppendedTwice(old(writer.SoFar()), BigEndian(v.index, indexBits), Emit(variants[v.index], v.body).bits);
    case Vec(maxLen, _) =>
      if |v.items| > maxLen {
        NothingAppended(writer);
        return Fail(InvalidData);
      }
      LengthBitsFit(maxLen);
      r := writer.WriteBits(|v.items|, BitLength(maxLen));
      r := SerializeParts(schema, v.items, writer);
      AppendedTwice(old(writer.SoFar()), BigEndian(|v.items|, BitLength(maxLen)),
          EmitParts(schema, v.items, |v.items|).bits);
    case Array(_, _) =>
      r := SerializeParts(schema, v.items, writer);
    case Tuple(_) =>
      r := SerializeParts(schema, v.items, writer);
  }

  method SerializeParts(schema: Schema, vs: seq<Value>, writer: BitBuffer) returns (r: Outcome<IoError>)
    requires WellFormed(schema) && IsList(schema) && PartsHaveShape(schema, vs, |vs|) && writer.WriterValid()
    modifies writer`buffer, writer`bitPos, writer`unpaddedLength
    ensures r == EmitParts(schema, vs, |vs|).r
    ensures writer.Appended(old(writer.bitPos), old(writer.SoFar()), EmitParts(schema, vs, |vs|).bits)
    decreases schema, 0, 0
  {
    NothingAppended(writer);
    r := Pass;
    for i := 0 to |vs|
      invariant PartsHaveShape(schema, vs, i) && EmitParts(schema, vs, i).r == Pass == r
      invariant writer.Appended(old(writer.bitPos), old(writer.SoFar()), EmitParts(schema, vs, i).bits)
    {
      ShapeOfPrefix(schema, vs, i + 1, |vs|);
      r := BitSerialize(Part(schema, i), vs[i], writer);
      AppendedTwice(old(writer.SoFar()), EmitParts(schema, vs, i).bits, Emit(Part(schema, i), vs[i]).bits);
      if r.Fail? {
        FailureStops(schema, vs, i + 1, |vs|);
        return;
      }
    }
  }

  method BitDeserialize(schema: Schema, reader: BitBuffer) returns (r: Result<Value, IoError>)
    requires WellFormed(schema) && reader.ReaderValid()
    modifies reader`readPos
    ensures reader.ReaderValid()
    ensures match Parse(schema, old(reader.Unread()))
            case Success(p) => r == Success(p.value) && reader.Unread() == p.rest
            case Failure(e) => r == Failure(e)
    decreases schema, 1, 0
  {
    hide AllBits, Slice, BitAt, ParseParts, HasPart, FromBits, BitLength, Pow2, BitBuffer.ReaderValid, BitBuffer.Unread;
    match schema
    case UInt(bits) =>
      var n :- reader.ReadBits(bits);
      r := Success(Num(n));
    case Bool =>
      var b :- reader.ReadBit();
      r := Success(Flag(b));
    case Opt(some) =>
      var hasValue :- reader.ReadBit();
      if hasValue {
        var v :- BitDeserialize(some, reader);
        r := Success(Just(v));
      } else {
        r := Success(Null);
      }
    case Enum(indexBits, variants) =>
      var index :- reader.ReadBits(indexBits);
      if index < |variants| {
        var v :- BitDeserialize(variants[index], reader);
        r := Success(Variant(index, v));
      } else {
        r := Failure(InvalidData);
      }
    case Vec(maxLen, _) =>
      LengthBitsFit(maxLen);
      var len :- reader.ReadBits(BitLength(maxLen));
      if len > maxLen { return Failure(InvalidData); }
      var vs :- DeserializeParts(schema, len, reader);
      r := Success(Items(vs));
    case Array(len, _) =>
      var vs :- DeserializeParts(schema, len, reader);
      r := Success(Items(vs));
    case Tuple(fields) =>
      var vs :- DeserializeParts(schema, |fields|, reader);
      r := Success(Items(vs));
  }

  method DeserializeParts(schema: Schema, n: nat, reader: BitBuffer) returns (r: Result<seq<Value>, IoError>)
    requires WellFormed(schema) && IsList(schema) && (schema.Tuple? ==> n <= |schema.fields|) && reader.ReaderValid()
    modifies reader`readPos
    ensures reader.ReaderValid()
    ensures match ParseParts(schema, old(reader.Unread()), n)
            case Success(p) => r == Success(p.value) && reader.Unread() == p.rest
            case Failure(e) => r == Failure(e)
    decreases schema, 0, n
  {
    var vs: seq<Value> := [];
    for i := 0 to n
      invariant reader.ReaderValid()
      invariant ParseParts(schema, old(reader.Unread()), i) == Success(Parsed(vs, reader.Unread()))
    {
      hide *;
      NextPart(schema, old(reader.Unread()), i, n, vs, reader.Unread());
      var v := BitDeserialize(Part(schema, i), reader);
      if v.Failure? { return Failure(v.error); }
      vs := vs + [v.value];
    }
    r := Success(vs);
  }

  /** The part after the first `i`: if it cannot be read, the list cannot. */
  lemma NextPart(schema: Schema, s: BitString, i: nat, n: nat, vs: seq<Value>, rest: BitString)
    requires WellFormed(schema) && IsList(schema) && (schema.Tuple? ==> n <= |schema.fields|) && i < n
    requires ParseParts(schema, s, i) == Success(Parsed(vs, rest))
    ensures HasPart(schema, i) && WellFormed(Part(schema, i))
    ensures match Parse(Part(schema, i), rest)
            case Success(p) => ParseParts(schema, s, i + 1) == Success(Parsed(vs + [p.value], p.rest))
            case Failure(e) => ParseParts(schema, s, n) == Failure(e)
  {
    UnreadableStops(schema, s, i + 1, n);
    hide Parse, WellFormed;
  }

  lemma {:induction false} ShapeOfPrefix(schema: Schema, vs: seq<Value>, k: nat, n: nat)
    requires IsList(schema) && k <= n <= |vs| && PartsHaveShape(schema, vs, n)
    ensures PartsHaveShape(schema, vs, k)
    decreases n
  {
    if k < n { ShapeOfPrefix(schema, vs, k, n - 1); }
  }

  lemma {:induction false} FailureStops(schema: Schema, vs: seq<Value>, k: nat, n: nat)
    requires IsList(schema) && k <= n <= |vs| && PartsHaveShape(schema, vs, n)
    ensures PartsHaveShape(schema, vs, k)
    ensures EmitParts(schema, vs, k).r.Fail? ==> EmitParts(schema, vs, n) == EmitParts(schema, vs, k)
    decreases n
  {
    if k < n { FailureStops(schema, vs, k, n - 1); }
  }

  lemma {:induction false} UnreadableStops(schema: Schema, s: BitString, k: nat, n: nat)
    requires WellFormed(schema) && IsList(schema) && (schema.Tuple? ==> n <= |schema.fields|) && k <= n
    ensures var r := ParseParts(schema, s, k); r.Failure? ==> ParseParts(schema, s, n) == Failure(r.error)
    decreases n
  {
    if k < n { UnreadableStops(schema, s, k, n - 1); }
  }

  lemma NothingAppended(writer: BitBuffer)
    requires writer.WriterValid()
    ensures writer.Appended(writer.bitPos, writer.SoFar(), [])
  {
    hide Slice, ZeroFrom;
    assert writer.SoFar() + [] == writer.SoFar();
  }

  lemma AppendedTwice(before: BitString, first: BitString, next: BitString)
    ensures (before + first) + next == before + (first + next)
  {
  }

  // ---------- which values can be written ----------

  /** Every number fits its width, and every vector its bound. */
  predicate Fits(schema: Schema, v: Value)
    requires HasShape(schema, v)
    decreases schema, 1, 0
  {
    match schema
    case UInt(bits) => v.n < Pow2(bits)
    case Bool => true
    case Opt(some) => v.Just? ==> Fits(some, v.some)
    case Enum(_, variants) => Fits(variants[v.index], v.body)
    case Vec(maxLen, _) => |v.items| <= maxLen && PartsFit(schema, v.items, |v.items|)
    case _ => PartsFit(schema, v.items, |v.items|)
  }

  predicate PartsFit(schema: Schema, vs: seq<Value>, n: nat)
    requires IsList(schema) && n <= |vs| && PartsHaveShape(schema, vs, n)
    decreases schema, 0, n
  {
    n > 0 ==> PartsFit(schema, vs, n - 1) && Fits(Part(schema, n - 1), vs[n - 1])
  }

  lemma {:induction false} WritesIffFits(schema: Schema, v: Value)
    requires WellFormed(schema) && HasShape(schema, v)
    ensures Emit(schema, v).r == if Fits(schema, v) then Pass else Fail(InvalidData)
    decreases schema, 1, 0
  {
    match schema
    case UInt(bits) => if bits == 64 { WordSizes(); }
    case Bool =>
    case Opt(some) => if v.Just? { WritesIffFits(some, v.some); }
    case Enum(_, variants) => WritesIffFits(variants[v.index], v.body);
    case Vec(_, _) => PartsWriteIffFit(schema, v.items, |v.items|);
    case Array(_, _) => PartsWriteIffFit(schema, v.items, |v.items|);
    case Tuple(_) => PartsWriteIffFit(schema, v.items, |v.items|);
  }

  lemma {:induction false} PartsWriteIffFit(schema: Schema, vs: seq<Value>, n: nat)
    requires WellFormed(schema) && IsList(schema) && n <= |vs| && PartsHaveShape(schema, vs, n)
    ensures EmitParts(schema, vs, n).r == if PartsFit(schema, vs, n) then Pass else Fail(InvalidData)
    decreases schema, 0, n
  {
    if n > 0 {
      PartsWriteIffFit(schema, vs, n - 1);
      WritesIffFits(Part(schema, n - 1), vs[n - 1]);
    }
  }

  // ---------- round trips ----------

  lemma TakesWritten(v: nat, n: nat, suffix: BitString)
    requires n <= 64 && v < Pow2(n)
    ensures TakeNumber(BigEndian(v, n) + suffix, n) == Success(Parsed(v, suffix))
  {
    var s := BigEndian(v, n) + suffix;
    assert s[..n] == BigEndian(v, n) && s[n..] == suffix;
    ValueRoundTrip(v, n);
    LowIsMod(v, n);
    LowFix(v, n);
  }

  lemma PrefixedNumber(v: nat, n: nat, body: BitString, suffix: BitString)
    requires n <= 64 && v < Pow2(n)
    ensures TakeNumber(BigEndian(v, n) + body + suffix, n) == Success(Parsed(v, body + suffix))
  {
    AppendedTwice(BigEndian(v, n), body, suffix);
    hide BigEndian;
    TakesWritten(v, n, body + suffix);
  }

  ghost predicate ReadsBack(schema: Schema, v: Value, suffix: BitString)
    requires WellFormed(schema) && HasShape(schema, v)
  {
    Emit(schema, v).r.Pass? ==> Parse(schema, Emit(schema, v).bits + suffix) == Success(Parsed(v, suffix))
  }

  ghost predicate PartsReadBack(schema: Schema, vs: seq<Value>, n: nat, suffix: BitString)
    requires WellFormed(schema) && IsList(schema) && n <= |vs| && PartsHaveShape(schema, vs, n)
    requires schema.Tuple? ==> n <= |schema.fields|
  {
    EmitParts(schema, vs, n).r.Pass? ==>
      ParseParts(schema, EmitParts(schema, vs, n).bits + suffix, n) == Success(Parsed(vs[..n], suffix))
  }

  lemma UIntReadsBack(schema: Schema, v: Value, suffix: BitString)
    requires schema.UInt? && WellFormed(schema) && HasShape(schema, v)
    ensures ReadsBack(schema, v, suffix)
  {
    if schema.bits == 64 { WordSizes(); }
    if v.n < Pow2(schema.bits) { TakesWritten(v.n, schema.bits, suffix); }
  }

  lemma OptReadsBack(schema: Schema, v: Value, suffix: BitString)
    requires schema.Opt? && WellFormed(schema) && HasShape(schema, v)
    requires v.Just? ==> ReadsBack(schema.some, v.some, suffix)
    ensures ReadsBack(schema, v, suffix)
  {
    if v.Just? {
      var s := [true] + Emit(schema.some, v.some).bits + suffix;
      assert s[1..] == Emit(schema.some, v.some).bits + suffix;
    } else {
      assert ([false] + suffix)[1..] == suffix;
    }
  }

  lemma EnumReadsBack(schema: Schema, v: Value, suffix: BitString)
    requires schema.Enum? && WellFormed(schema) && HasShape(schema, v)
    requires ReadsBack(schema.variants[v.index], v.body, suffix)
    ensures ReadsBack(schema, v, suffix)
  {
    PrefixedNumber(v.index, schema.indexBits, Emit(schema.variants[v.index], v.body).bits, suffix);
    hide TakeNumber, BigEndian, Pow2;
  }

  lemma VecReadsBack(schema: Schema, v: Value, suffix: BitString)
    requires schema.Vec? && WellFormed(schema) && HasShape(schema, v)
    requires PartsReadBack(schema, v.items, |v.items|, suffix)
    ensures ReadsBack(schema, v, suffix)
  {
    if |v.items| <= schema.maxLen {
      LengthBitsFit(schema.maxLen);
      BitLengthBound(schema.maxLen, 64);
      PrefixedNumber(|v.items|, BitLength(schema.maxLen), EmitParts(schema, v.items, |v.items|).bits, suffix);
      assert v.items[..|v.items|] == v.items;
      hide EmitParts, ParseParts, TakeNumber, BigEndian, BitLength, HasShape, Pow2;
    }
  }

  lemma ListReadsBack(schema: Schema, v: Value, suffix: BitString)
    requires (schema.Array? || schema.Tuple?) && WellFormed(schema) && HasShape(schema, v)
    requires PartsReadBack(schema, v.items, |v.items|, suffix)
    ensures ReadsBack(schema, v, suffix)
  {
    assert v.items[..|v.items|] == v.items;
    hide EmitParts, ParseParts;
  }

  /** What was written reads back, whatever follows it, and the reader stops
      exactly where the value ended. */
  lemma {:induction false} RoundTrip(schema: Schema, v: Value, suffix: BitString)
    requires WellFormed(schema) && HasShape(schema, v)
    ensures Emit(schema, v).r.Pass? ==> Parse(schema, Emit(schema, v).bits + suffix) == Success(Parsed(v, suffix))
    decreases schema, 1, 0
  {
    hide Emit, Parse, EmitParts, ParseParts;
    assert ReadsBack(schema, v, suffix) by {
      match schema
      case UInt(bits) => UIntReadsBack(schema, v, suffix);
      case Bool => BoolReadsBack(v.b, suffix);
      case Opt(some) =>
        if v.Just? { RoundTrip(some, v.some, suffix); }
        OptReadsBack(schema, v, suffix);
      case Enum(_, variants) =>
        RoundTrip(variants[v.index], v.body, suffix);
        EnumReadsBack(schema, v, suffix);
      case Vec(_, _) =>
        PartsRoundTrip(schema, v.items, |v.items|, suffix);
        VecReadsBack(schema, v, suffix);
      case Array(_, _) =>
        PartsRoundTrip(schema, v.items, |v.items|, suffix);
        ListReadsBack(schema, v, suffix);
      case Tuple(_) =>
        PartsRoundTrip(schema, v.items, |v.items|, suffix);
        ListReadsBack(schema, v, suffix);
    }
  }

  lemma BoolReadsBack(b: bool, suffix: BitString)
    ensures ReadsBack(Bool, Flag(b), suffix)
  {
  }

  lemma {:induction false} PartsRoundTrip(schema: Schema, vs: seq<Value>, n: nat, suffix: BitString)
    requires WellFormed(schema) && IsList(schema) && n <= |vs| && PartsHaveShape(schema, vs, n)
    requires schema.Tuple? ==> n <= |schema.fields|
    ensures PartsReadBack(schema, vs, n, suffix)
    decreases schema, 0, n
  {
    if n == 0 {
      assert [] + suffix == suffix;
    } else {
      var front, last := EmitParts(schema, vs, n - 1).bits, Emit(Part(schema, n - 1), vs[n - 1]).bits;
      PartsRoundTrip(schema, vs, n - 1, last + suffix);
      RoundTrip(Part(schema, n - 1), vs[n - 1], suffix);
      AppendedTwice(front, last, suffix);
      assert vs[..n - 1] + [vs[n - 1]] == vs[..n];
    }
  }

  // ---------- what is read was written ----------

  lemma TakenIsWritten(s: BitString, n: nat)
    requires n <= 64 && n <= |s|
    ensures var p := TakeNumber(s, n).value;
      p.value < Pow2(n) && BigEndian(p.value, n) + p.rest == s
  {
    FromBitsBound(s[..n]);
    BitsRoundTrip(s[..n]);
    hide FromBits, BigEndian, Pow2;
  }

  ghost predicate IsCanonical(schema: Schema, s: BitString)
    requires WellFormed(schema)
  {
    Parse(schema, s).Success? ==>
      var p := Parse(schema, s).value;
      HasShape(schema, p.value) && Emit(schema, p.value).r.Pass? && s == Emit(schema, p.value).bits + p.rest
  }

  ghost predicate PartsAreCanonical(schema: Schema, s: BitString, n: nat)
    requires WellFormed(schema) && IsList(schema) && (schema.Tuple? ==> n <= |schema.fields|)
  {
    ParseParts(schema, s, n).Success? ==>
      var p := ParseParts(schema, s, n).value;
      && PartsHaveShape(schema, p.value, n)
      && EmitParts(schema, p.value, n).r.Pass?
      && s == EmitParts(schema, p.value, n).bits + p.rest
  }

  lemma UIntIsCanonical(schema: Schema, s: BitString)
    requires schema.UInt? && WellFormed(schema)
    ensures IsCanonical(schema, s)
  {
    if schema.bits <= |s| { TakenIsWritten(s, schema.bits); }
  }

  lemma BoolIsCanonical(s: BitString)
    ensures IsCanonical(Bool, s)
  {
  }

  lemma OptIsCanonical(schema: Schema, s: BitString)
    requires schema.Opt? && WellFormed(schema)
    requires s != [] ==> IsCanonical(schema.some, s[1..])
    ensures IsCanonical(schema, s)
  {
  }

  lemma EnumIsCanonical(schema: Schema, s: BitString)
    requires schema.Enum? && WellFormed(schema) && schema.indexBits <= |s|
    requires var p := TakeNumber(s, schema.indexBits).value;
             p.value < |schema.variants| ==> IsCanonical(schema.variants[p.value], p.rest)
    ensures IsCanonical(schema, s)
  {
    TakenIsWritten(s, schema.indexBits);
    var p := TakeNumber(s, schema.indexBits).value;
    if p.value < |schema.variants| && Parse(schema.variants[p.value], p.rest).Success? {
      hide BigEndian, Pow2;
      var q := Parse(schema.variants[p.value], p.rest).value;
      AppendedTwice(BigEndian(p.value, schema.indexBits), Emit(schema.variants[p.value], q.value).bits, q.rest);
    }
  }

  lemma VecIsCanonical(schema: Schema, s: BitString)
    requires schema.Vec? && WellFormed(schema)
    requires BitLength(schema.maxLen) <= 64 && BitLength(schema.maxLen) <= |s|
    requires var p := TakeNumber(s, BitLength(schema.maxLen)).value;
             PartsAreCanonical(schema, p.rest, p.value)
    ensures IsCanonical(schema, s)
  {
    var n := BitLength(schema.maxLen);
    TakenIsWritten(s, n);
    var p := TakeNumber(s, n).value;
    hide TakeNumber, BigEndian, Pow2, BitLength, PartsHaveShape, EmitParts, ParseParts;
    if p.value <= schema.maxLen && ParseParts(schema, p.rest, p.value).Success? {
      var q := ParseParts(schema, p.rest, p.value).value;
      AppendedTwice(BigEndian(p.value, n), EmitParts(schema, q.value, p.value).bits, q.rest);
    }
  }

  lemma ListIsCanonical(schema: Schema, s: BitString)
    requires (schema.Array? || schema.Tuple?) && WellFormed(schema)
    requires PartsAreCanonical(schema, s, if schema.Array? then schema.len else |schema.fields|)
    ensures IsCanonical(schema, s)
  {
    hide PartsHaveShape, EmitParts, ParseParts;
  }

  /** Only what the writer would have written is accepted: a value has no second
      encoding. */
  lemma {:induction false} ReadsOnlyWritten(schema: Schema, s: BitString)
    requires WellFormed(schema)
    ensures
      Parse(schema, s).Success? ==>
        var p := Parse(schema, s).value;
        HasShape(schema, p.value) && Emit(schema, p.value).r.Pass? && s == Emit(schema, p.value).bits + p.rest
    decreases schema, 1, 0
  {
    hide Emit, EmitParts, ParseParts, HasShape, BitLength;
    assert IsCanonical(schema, s) by {
      match schema
      case UInt(bits) => UIntIsCanonical(schema, s);
      case Bool => BoolIsCanonical(s);
      case Opt(some) =>
        if s != [] { ReadsOnlyWritten(some, s[1..]); }
        OptIsCanonical(schema, s);
      case Enum(indexBits, variants) =>
        if indexBits <= |s| {
          var p := TakeNumber(s, indexBits).value;
          if p.value < |variants| { ReadsOnlyWritten(variants[p.value], p.rest); }
          EnumIsCanonical(schema, s);
        }
      case Vec(maxLen, _) =>
        LengthBitsFit(maxLen);
        if BitLength(maxLen) <= |s| {
          var p := TakeNumber(s, BitLength(maxLen)).value;
          PartsReadOnlyWritten(schema, p.rest, p.value);
          VecIsCanonical(schema, s);
        }
      case Array(len, _) =>
        PartsReadOnlyWritten(schema, s, len);
        ListIsCanonical(schema, s);
      case Tuple(fields) =>
        PartsReadOnlyWritten(schema, s, |fields|);
        ListIsCanonical(schema, s);
    }
  }

  lemma {:induction false} PartsReadOnlyWritten(schema: Schema, s: BitString, n: nat)
    requires WellFormed(schema) && IsList(schema) && (schema.Tuple? ==> n <= |schema.fields|)
    ensures PartsAreCanonical(schema, s, n)
    decreases schema, 0, n
  {
    if n == 0 {
      assert [] + s == s;
    } else if ParseParts(schema, s, n).Success? {
      var p := ParseParts(schema, s, n - 1).value;
      PartsReadOnlyWritten(schema, s, n - 1);
      ReadsOnlyWritten(Part(schema, n - 1), p.rest);
      var q := Parse(Part(schema, n - 1), p.rest).value;
      OnlyFirstParts(schema, p.value, p.value + [q.value], n - 1);
      AppendedTwice(EmitParts(schema, p.value, n - 1).bits, Emit(Part(schema, n - 1), q.value).bits, q.rest);
    }
  }

  lemma {:induction false} OnlyFirstParts(schema: Schema, vs: seq<Value>, ws: seq<Value>, n: nat)
    requires IsList(schema) && n <= |vs| && vs <= ws && PartsHaveShape(schema, vs, n)
    ensures PartsHaveShape(schema, ws, n) && EmitParts(schema, ws, n) == EmitParts(schema, vs, n)
    decreases n
  {
    if n > 0 { OnlyFirstParts(schema, vs, ws, n - 1); }
  }

  /** The same outcome with more bits left over. */
  function Longer<T>(r: Result<Parsed<T>, IoError>, t: BitString): Result<Parsed<T>, IoError> {
    if r.Success? then Success(Parsed(r.value.value, r.value.rest + t)) else r
  }

  lemma MoreToTake(s: BitString, t: BitString, n: nat)
    requires n <= 64
    ensures n <= |s| ==> TakeNumber(s + t, n) == Longer(TakeNumber(s, n), t)
    ensures n > |s| ==> TakeNumber(s, n) == Failure(UnexpectedEof)
  {
    if n <= |s| { assert (s + t)[..n] == s[..n] && (s + t)[n..] == s[n..] + t; }
  }

  /** Unless the bits ran out, more of them make no difference. */
  lemma {:induction false} MoreBits(schema: Schema, s: BitString, t: BitString)
    requires WellFormed(schema)
    ensures Parse(schema, s) != Failure(UnexpectedEof) ==> Parse(schema, s + t) == Longer(Parse(schema, s), t)
    decreases schema, 1, 0
  {
    hide FromBits, BitLength;
    match schema
    case UInt(bits) => MoreToTake(s, t, bits);
    case Bool => if s != [] { assert (s + t)[1..] == s[1..] + t; }
    case Opt(some) =>
      if s != [] {
        assert (s + t)[1..] == s[1..] + t;
        MoreBits(some, s[1..], t);
      }
    case Enum(indexBits, variants) =>
      MoreToTake(s, t, indexBits);
      if indexBits <= |s| {
        var p := TakeNumber(s, indexBits).value;
        if p.value < |variants| { MoreBits(variants[p.value], p.rest, t); }
      }
    case Vec(maxLen, item) =>
      LengthBitsFit(maxLen);
      MoreToTake(s, t, BitLength(maxLen));
      if BitLength(maxLen) <= |s| {
        var p := TakeNumber(s, BitLength(maxLen)).value;
        if p.value <= maxLen { MorePartBits(schema, p.rest, t, p.value); }
      }
    case Array(len, _) => MorePartBits(schema, s, t, len);
    case Tuple(fields) => MorePartBits(schema, s, t, |fields|);
  }

  lemma {:induction false} MorePartBits(schema: Schema, s: BitString, t: BitString, n: nat)
    requires WellFormed(schema) && IsList(schema) && (schema.Tuple? ==> n <= |schema.fields|)
    ensures ParseParts(schema, s, n) != Failure(UnexpectedEof) ==>
      ParseParts(schema, s + t, n) == Longer(ParseParts(schema, s, n), t)
    decreases schema, 0, n
  {
    if n > 0 {
      MorePartBits(schema, s, t, n - 1);
      var p := ParseParts(schema, s, n - 1);
      if p.Success? { MoreBits(Part(schema, n - 1), p.value.rest, t); }
    }
  }

  /** A truncated message is always refused, for want of bits and nothing else. */
  lemma TruncatedIsRefused(schema: Schema, v: Value, k: nat)
    requires WellFormed(schema) && HasShape(schema, v) && Emit(schema, v).r.Pass?
    requires k < |Emit(schema, v).bits|
    ensures Parse(schema, Emit(schema, v).bits[..k]) == Failure(UnexpectedEof)
  {
    var bits := Emit(schema, v).bits;
    hide *;
    RoundTrip(schema, v, []);
    MoreBits(schema, bits[..k], bits[k..]);
    assert bits[..k] + bits[k..] == bits == bits + [];
    LongerLeaves(Parse(schema, bits[..k]), bits[k..]);
  }

  lemma LongerLeaves(r: Result<Parsed<Value>, IoError>, t: BitString)
    ensures r.Failure? ==> Longer(r, t) == r
    ensures r.Success? ==> Longer(r, t).Success? && |Longer(r, t).value.rest| >= |t|
  {
  }
}
