/** The formats on the wire, byte for byte and bit for bit, told apart from the
    functions that write and read them. */
module WireFormats {
  import opened Wrappers
  import opened Bits
  import opened BitIo
  import opened Codec
  import opened Packets
  import Channels
  import Fragments
  import Batching

  // ---------- numbers ----------

  lemma {:induction false} BitByDivision(v: nat, i: nat)
    ensures TestBit(v, i) <==> v / Pow2(i) % 2 == 1
  {
    if i > 0 {
      BitByDivision(v / 2, i - 1);
      HalvedFirst(v, Pow2(i - 1));
    }
  }

  lemma HalvedFirst(v: nat, p: nat)
    requires p > 0
    ensures v / 2 / p == v / (2 * p)
  {
    var q, r := v / 2 / p, v / 2 % p;
    assert v / 2 == p * q + r;
    assert v == (2 * p) * q + (2 * r + v % 2) by { assert (2 * p) * q == 2 * (p * q); }
    DivUnique(v, 2 * p, q, 2 * r + v % 2);
  }

  /** Numbers stand with the most significant bit first: bit i of n is the one worth
      2^(n - 1 - i). */
  lemma MostSignificantFirst(v: nat, n: nat, i: nat)
    requires i < n
    ensures BigEndian(v, n)[i] <==> v / Pow2(n - 1 - i) % 2 == 1
  {
    BitByDivision(v, n - 1 - i);
  }

  /** And so do the bits of each byte. */
  lemma BytesMostSignificantFirst(data: Bytes, i: nat)
    requires i < 8 * |data|
    ensures AllBits(data)[i] <==> data[i / 8] / Pow2(7 - i % 8) % 2 == 1
  {
    BitByDivision(data[i / 8], 7 - i % 8);
  }

  // ---------- packets ----------

  /** 32, 16, 16 and 64 bits. */
  function HeaderBits(h: PacketHeader): BitString {
    BigEndian(h.protocolId, 32) + BigEndian(h.sequence, 16) + BigEndian(h.ack, 16) + BigEndian(h.ackBits, 64)
  }

  /** Four bits of type, and its fields. */
  function TypeBits(t: PacketType): BitString {
    match t
    case ConnectionRequest => [false, false, false, false]
    case ConnectionChallenge(salt) => [false, false, false, true] + BigEndian(salt, 64)
    case ConnectionResponse(salt) => [false, false, true, false] + BigEndian(salt, 64)
    case ConnectionAccept => [false, false, true, true]
    case ConnectionDeny(reason) => [false, true, false, false] + BigEndian(reason, 8)
    case Disconnect(reason) => [false, true, false, true] + BigEndian(reason, 8)
    case KeepAlive => [false, true, true, false]
    case Payload(channel, isFragment) => [false, true, true, true] + (BigEndian(channel, 3) + [isFragment])
    case BatchedPayload(channel) => [true, false, false, false] + BigEndian(channel, 3)
    case MtuProbe(size) => [true, false, false, true] + BigEndian(size, 16)
    case MtuProbeAck(size) => [true, false, true, false] + BigEndian(size, 16)
    case AckOnly => [true, false, true, true]
    case ConnectionCookie(high, low) => [true, true, false, false] + (BigEndian(high, 64) + BigEndian(low, 64))
    case ConnectionRequestWithCookie(high, low) =>
      [true, true, false, true] + (BigEndian(high, 64) + BigEndian(low, 64))
  }

  lemma FieldWritten(bits: nat, n: u64)
    requires 0 < bits <= 64 && n < Pow2(bits)
    ensures HasShape(UInt(bits), Num(n)) && Emit(UInt(bits), Num(n)) == Output(BigEndian(n, bits), Pass)
  {
  }

  /** The first `n` fields take the given bits. */
  ghost predicate Written(schema: Schema, vs: seq<Value>, n: nat, bits: BitString)
    requires IsList(schema) && n <= |vs|
  {
    PartsHaveShape(schema, vs, n) && EmitParts(schema, vs, n) == Output(bits, Pass)
  }

  lemma NoneWritten(schema: Schema, vs: seq<Value>)
    requires IsList(schema)
    ensures Written(schema, vs, 0, [])
  {
  }

  lemma OneMoreWritten(schema: Schema, vs: seq<Value>, n: nat, bits: BitString, next: BitString)
    requires schema.Tuple? && n < |vs| == |schema.fields| && Written(schema, vs, n, bits)
    requires HasShape(schema.fields[n], vs[n]) && Emit(schema.fields[n], vs[n]) == Output(next, Pass)
    ensures Written(schema, vs, n + 1, bits + next)
  {
    assert Part(schema, n) == schema.fields[n];
  }

  lemma AllWritten(fields: seq<Schema>, vs: seq<Value>, bits: BitString)
    requires |vs| == |fields| && Written(Tuple(fields), vs, |vs|, bits)
    ensures HasShape(Tuple(fields), Items(vs)) && Emit(Tuple(fields), Items(vs)) == Output(bits, Pass)
  {
  }

  lemma HeaderWritten(h: PacketHeader)
    ensures HasShape(HeaderSchema(), HeaderValue(h))
    ensures Emit(HeaderSchema(), HeaderValue(h)) == Output(HeaderBits(h), Pass)
  {
    WordSizes();
    FieldWritten(32, h.protocolId);
    FieldWritten(16, h.sequence);
    FieldWritten(16, h.ack);
    FieldWritten(64, h.ackBits);
    var fields, vs := HeaderSchema().fields, HeaderValue(h).items;
    hide BigEndian, Written, Emit, HasShape;
    var a, b := BigEndian(h.protocolId, 32), BigEndian(h.sequence, 16);
    var c, d := BigEndian(h.ack, 16), BigEndian(h.ackBits, 64);
    NoneWritten(Tuple(fields), vs);
    OneMoreWritten(Tuple(fields), vs, 0, [], a);
    OneMoreWritten(Tuple(fields), vs, 1, [] + a, b);
    OneMoreWritten(Tuple(fields), vs, 2, [] + a + b, c);
    OneMoreWritten(Tuple(fields), vs, 3, [] + a + b + c, d);
    assert [] + a + b + c + d == HeaderBits(h);
    AllWritten(fields, vs, HeaderBits(h));
  }

  lemma NoFields()
    ensures HasShape(Tuple([]), Items([])) && Emit(Tuple([]), Items([])) == Output([], Pass)
  {
  }

  lemma OneField(bits: nat, n: u64)
    requires 0 < bits <= 64 && n < Pow2(bits)
    ensures HasShape(Tuple([UInt(bits)]), Items([Num(n)]))
    ensures Emit(Tuple([UInt(bits)]), Items([Num(n)])) == Output(BigEndian(n, bits), Pass)
  {
    FieldWritten(bits, n);
    hide BigEndian, Pow2, Written, Emit, HasShape;
    var fields := [UInt(bits)];
    NoneWritten(Tuple(fields), [Num(n)]);
    OneMoreWritten(Tuple(fields), [Num(n)], 0, [], BigEndian(n, bits));
    assert [] + BigEndian(n, bits) == BigEndian(n, bits);
    AllWritten(fields, [Num(n)], BigEndian(n, bits));
  }

  lemma TwoFields(bits: nat, n: u64, second: Schema, v: Value, written: BitString)
    requires 0 < bits <= 64 && n < Pow2(bits) && HasShape(second, v) && Emit(second, v) == Output(written, Pass)
    ensures HasShape(Tuple([UInt(bits), second]), Items([Num(n), v]))
    ensures Emit(Tuple([UInt(bits), second]), Items([Num(n), v])) == Output(BigEndian(n, bits) + written, Pass)
  {
    FieldWritten(bits, n);
    hide BigEndian, Pow2, Written, Emit, HasShape;
    var fields, vs := [UInt(bits), second], [Num(n), v];
    NoneWritten(Tuple(fields), vs);
    OneMoreWritten(Tuple(fields), vs, 0, [], BigEndian(n, bits));
    assert [] + BigEndian(n, bits) == BigEndian(n, bits);
    OneMoreWritten(Tuple(fields), vs, 1, BigEndian(n, bits), written);
    AllWritten(fields, vs, BigEndian(n, bits) + written);
  }

  /** A number up to 15 in four bits. */
  function Nibble(i: nat): BitString { [i / 8 % 2 == 1, i / 4 % 2 == 1, i / 2 % 2 == 1, i % 2 == 1] }

  lemma FourBits(i: nat)
    ensures BigEndian(i, 4) == Nibble(i)
  {
    BitByDivision(i, 0);
    BitByDivision(i, 1);
    BitByDivision(i, 2);
    BitByDivision(i, 3);
    assert Pow2(0) == 1 && Pow2(1) == 2 && Pow2(2) == 4 && Pow2(3) == 8;
    hide TestBit, Pow2;
  }

  lemma VariantWritten(i: nat, body: Value, written: BitString)
    requires i < 14 && HasShape(TypeSchema().variants[i], body)
    requires Emit(TypeSchema().variants[i], body) == Output(written, Pass)
    ensures HasShape(TypeSchema(), Variant(i, body))
    ensures Emit(TypeSchema(), Variant(i, body)) == Output(Nibble(i) + written, Pass)
  {
    FourBits(i);
    hide BigEndian, Nibble;
  }

  lemma EmptyVariant(i: nat)
    requires i == 0 || i == 3 || i == 6 || i == 11
    ensures HasShape(TypeSchema(), Variant(i, Items([])))
    ensures Emit(TypeSchema(), Variant(i, Items([]))) == Output(Nibble(i), Pass)
  {
    NoFields();
    assert TypeSchema().variants[i] == Tuple([]);
    hide Emit, HasShape, Nibble, TypeSchema;
    VariantWritten(i, Items([]), []);
  }

  predicate IsNumberVariant(i: nat, bits: nat) {
    || ((i == 1 || i == 2) && bits == 64) || ((i == 4 || i == 5) && bits == 8)
    || (i == 8 && bits == 3) || ((i == 9 || i == 10) && bits == 16)
  }

  lemma NumberVariantIs(i: nat, bits: nat)
    requires IsNumberVariant(i, bits)
    ensures i < 14 && 0 < bits <= 64 && TypeSchema().variants[i] == Tuple([UInt(bits)])
  {
  }

  lemma NumberVariant(i: nat, bits: nat, n: u64)
    requires IsNumberVariant(i, bits) && n < Pow2(bits)
    ensures HasShape(TypeSchema(), Variant(i, Items([Num(n)])))
    ensures Emit(TypeSchema(), Variant(i, Items([Num(n)]))) == Output(Nibble(i) + BigEndian(n, bits), Pass)
  {
    hide Emit, HasShape, Nibble, TypeSchema, BigEndian, Pow2, IsNumberVariant;
    NumberVariantIs(i, bits);
    OneField(bits, n);
    VariantWritten(i, Items([Num(n)]), BigEndian(n, bits));
  }

  lemma PayloadVariant(channel: u8, isFragment: bool)
    requires channel < 8
    ensures var v := Variant(7, Items([Num(channel), Flag(isFragment)]));
      HasShape(TypeSchema(), v)
      && Emit(TypeSchema(), v) == Output(Nibble(7) + (BigEndian(channel, 3) + [isFragment]), Pass)
  {
    assert Pow2(3) == 8;
    assert Emit(Bool, Flag(isFragment)) == Output([isFragment], Pass);
    TwoFields(3, channel, Bool, Flag(isFragment), [isFragment]);
    assert TypeSchema().variants[7] == Tuple([UInt(3), Bool]);
    hide Emit, HasShape, Nibble, TypeSchema, BigEndian, Pow2;
    VariantWritten(7, Items([Num(channel), Flag(isFragment)]), BigEndian(channel, 3) + [isFragment]);
  }

  lemma WordsVariant(i: nat, high: u64, low: u64)
    requires i == 12 || i == 13
    ensures var v := Variant(i, Items([Num(high), Num(low)]));
      HasShape(TypeSchema(), v)
      && Emit(TypeSchema(), v) == Output(Nibble(i) + (BigEndian(high, 64) + BigEndian(low, 64)), Pass)
  {
    WordSizes();
    FieldWritten(64, low);
    assert HasShape(UInt(64), Num(low));
    TwoFields(64, high, UInt(64), Num(low), BigEndian(low, 64));
    assert TypeSchema().variants[i] == Tuple([UInt(64), UInt(64)]);
    hide Emit, HasShape, Nibble, TypeSchema, BigEndian, Pow2;
    VariantWritten(i, Items([Num(high), Num(low)]), BigEndian(high, 64) + BigEndian(low, 64));
  }

  lemma NumberSizes(t: PacketType)
    ensures t.ConnectionChallenge? ==> t.serverSalt < Pow2(64)
    ensures t.ConnectionResponse? ==> t.clientSalt < Pow2(64)
    ensures t.ConnectionDeny? ==> t.denyReason < Pow2(8)
    ensures t.Disconnect? ==> t.reason < Pow2(8)
    ensures t.MtuProbe? ==> t.probeSize < Pow2(16)
    ensures t.MtuProbeAck? ==> t.ackedSize < Pow2(16)
    ensures t.BatchedPayload? && ChannelFits(t) ==> t.batchChannel < Pow2(3)
  {
    WordSizes();
    assert Pow2(3) == 8 && Pow2(8) == 256;
  }

  lemma TypeWritten(t: PacketType)
    requires ChannelFits(t)
    ensures HasShape(TypeSchema(), TypeValue(t)) && Emit(TypeSchema(), TypeValue(t)) == Output(TypeBits(t), Pass)
  {
    NumberSizes(t);
    hide Emit, HasShape, BigEndian, Pow2, TypeSchema;
    match t
    case ConnectionRequest => EmptyVariant(0);
    case ConnectionChallenge(salt) => NumberVariant(1, 64, salt);
    case ConnectionResponse(salt) => NumberVariant(2, 64, salt);
    case ConnectionAccept => EmptyVariant(3);
    case ConnectionDeny(reason) => NumberVariant(4, 8, reason);
    case Disconnect(reason) => NumberVariant(5, 8, reason);
    case KeepAlive => EmptyVariant(6);
    case Payload(channel, isFragment) => PayloadVariant(channel, isFragment);
    case BatchedPayload(channel) => NumberVariant(8, 3, channel);
    case MtuProbe(size) => NumberVariant(9, 16, size);
    case MtuProbeAck(size) => NumberVariant(10, 16, size);
    case AckOnly => EmptyVariant(11);
    case ConnectionCookie(high, low) => WordsVariant(12, high, low);
    case ConnectionRequestWithCookie(high, low) => WordsVariant(13, high, low);
  }

  /** A packet is its header, its type and zeros to the next byte, and then the
      payload. */
  lemma PacketLayout(p: Packet, data: Bytes)
    requires ChannelFits(p.packetType) && IsPacket(p, data)
    ensures var bits := HeaderBits(p.header) + TypeBits(p.packetType);
      AllBits(data) == bits + Zeros((8 - |bits| % 8) % 8) + AllBits(p.payload)
  {
    hide *;
    BitsAre(p);
    PacketAsBits(p, data);
    PaddingIs(|PacketBits(p)|);
  }

  lemma BitsAre(p: Packet)
    requires ChannelFits(p.packetType)
    ensures PacketBits(p) == HeaderBits(p.header) + TypeBits(p.packetType)
  {
    HeaderWritten(p.header);
    TypeWritten(p.packetType);
    hide Emit, HasShape, BigEndian, HeaderBits, TypeBits, HeaderValue, TypeValue, HeaderSchema, TypeSchema;
  }

  lemma PaddingIs(n: nat)
    ensures Padding(n) == (8 - n % 8) % 8
  {
  }

  // ---------- the structured codec ----------

  /** A flag before what may be missing, a count before what may be of any length (in
      16 bits where no bound is given), and a number before a choice. */
  lemma CodecLayout(item: Schema, v: Value, vs: seq<Value>, variants: seq<Schema>, indexBits: nat, i: u64)
    requires HasShape(item, v) && Emit(item, v).r.Pass?
    ensures HasShape(Opt(item), Null) && Emit(Opt(item), Null) == Output([false], Pass)
    ensures HasShape(Opt(item), Just(v)) && Emit(Opt(item), Just(v)) == Output([true] + Emit(item, v).bits, Pass)
    ensures i < |variants| && variants[i] == item ==>
      && HasShape(Enum(indexBits, variants), Variant(i, v))
      && Emit(Enum(indexBits, variants), Variant(i, v)) == Output(BigEndian(i, indexBits) + Emit(item, v).bits, Pass)
    ensures var schema := Vec(65535, item);
      HasShape(schema, Items(vs)) && |vs| <= 65535 && EmitParts(schema, vs, |vs|).r.Pass? ==>
        Emit(schema, Items(vs)) == Output(BigEndian(|vs|, 16) + EmitParts(schema, vs, |vs|).bits, Pass)
  {
    DefaultLengthBits();
    hide BigEndian;
  }

  // ---------- the byte formats ----------

  /** A channel message: its number in two bytes, the high one first, and the data. */
  lemma ChannelLayout(sequence: u16, data: Bytes)
    ensures var wire := Channels.Wire(sequence, data);
      |wire| == 2 + |data| && 256 * (wire[0] as int) + wire[1] == sequence && wire[2..] == data
  {
  }

  /** A fragment: the message's number in four bytes, the high one first, which
      fragment it is, and of how many. */
  lemma FragmentLayout(h: Fragments.FragmentHeader)
    ensures var s := Fragments.SerializeHeader(h);
      |s| == 6 && (((s[0] as int) * 256 + s[1]) * 256 + s[2]) * 256 + s[3] == h.messageId
      && s[4] == h.fragmentIndex && s[5] == h.fragmentCount
  {
    Fragments.FourBytes(h.messageId);
  }

  /** The bytes of a batch after its count: two of length before each message, the
      high one first. */
  function Lengthed(group: seq<Bytes>): Bytes
    requires forall m :: m in group ==> |m| < 65536
  {
    if group == [] then []
    else
      var m := group[|group| - 1];
      assert forall k :: k in group[..|group| - 1] ==> k in group;
      Lengthed(group[..|group| - 1]) + [|m| / 256, |m| % 256] + m
  }

  lemma {:induction false} BodyLayout(group: seq<Bytes>)
    requires forall m :: m in group ==> |m| < 65536
    ensures Batching.Body(group) == Lengthed(group) && |Lengthed(group)| + 1 == Batching.Size(group)
  {
    if group != [] {
      var front, m := group[..|group| - 1], group[|group| - 1];
      assert forall k :: k in front ==> k in group;
      BodyLayout(front);
      assert |m| / 256 % 256 == |m| / 256;
    }
  }

  /** Every batch starts with its count, from 1 to 255; one of more than one message
      is within the size that was asked for, to the byte. */
  lemma BatchLayout(messages: seq<Bytes>, maxSize: nat, g: Batching.Group)
    requires g in Batching.Groups(messages, maxSize) && forall m :: m in g ==> |m| < 65536
    ensures 1 <= |g| <= 255 && Batching.Batch(g) == [|g|] + Lengthed(g)
    ensures |g| >= 2 ==> |Batching.Batch(g)| <= maxSize
  {
    Batching.GroupsAreRight(messages, maxSize);
    BodyLayout(g);
    hide Batching.Groups, Batching.Body, Batching.Size;
  }

  ghost predicate AllShort(group: seq<Bytes>) { forall m :: m in group ==> |m| < 65536 }

  lemma {:induction false} LengthedFront(m: Bytes, rest: seq<Bytes>)
    requires |m| < 65536 && AllShort(rest)
    ensures AllShort([m] + rest) && Lengthed([m] + rest) == [|m| / 256, |m| % 256] + m + Lengthed(rest)
    decreases |rest|
  {
    var all := [m] + rest;
    if rest == [] {
      assert all == [m] && [m][..0] == [];
      assert Lengthed([m]) == Lengthed([]) + [|m| / 256, |m| % 256] + m;
    } else {
      var n := |rest| - 1;
      assert all[..|all| - 1] == [m] + rest[..n] && all[|all| - 1] == rest[n];
      LengthedFront(m, rest[..n]);
    }
  }

  /** The bytes of the messages stand at the start. */
  ghost predicate Begins(data: Bytes, ms: seq<Bytes>) { AllShort(ms) && Lengthed(ms) <= data }

  lemma BeginsWith(data: Bytes, m: Bytes, rest: seq<Bytes>)
    ensures Begins(data, [m] + rest) <==>
      && |data| >= 2 && var length := 256 * (data[0] as int) + data[1];
      length == |m| && 2 + length <= |data| && data[2..2 + length] == m && Begins(data[2 + length..], rest)
  {
    if AllShort([m] + rest) {
      assert m in [m] + rest && forall k :: k in rest ==> k in [m] + rest;
      LengthedFront(m, rest);
      var front := [|m| / 256, |m| % 256] + m;
      hide Lengthed;
      PrefixSplit(front, Lengthed(rest), data);
      if front <= data { assert data[..2] == front[..2] && data[2..2 + |m|] == front[2..]; }
    } else if |m| < 65536 && AllShort(rest) {
      LengthedFront(m, rest);
    }
  }

  lemma PrefixSplit(a: Bytes, b: Bytes, data: Bytes)
    ensures a + b <= data <==> a <= data && b <= data[|a|..]
  {
    if a <= data && b <= data[|a|..] { assert data == a + data[|a|..]; }
    if a + b <= data { assert (a + b)[..|a|] == a && data[|a|..][..|b|] == (a + b)[|a|..]; }
  }

  lemma {:induction false} ParseReads(data: Bytes, count: nat, ms: seq<Bytes>)
    ensures Batching.Parse(data, count) == Some(ms) <==> |ms| == count && Begins(data, ms)
    decreases count
  {
    hide Begins;
    if count == 0 {
      NothingBegins(data);
    } else {
      Batching.ParseOne(data, count);
      hide Batching.Parse;
      if ms != [] {
        var m, rest := ms[0], ms[1..];
        assert ms == [m] + rest;
        BeginsWith(data, m, rest);
        if |data| >= 2 {
          var length := 256 * (data[0] as int) + data[1];
          if 2 + length <= |data| {
            ParseReads(data[2 + length..], count - 1, rest);
            if Batching.Parse(data[2 + length..], count - 1).Some? {
              var found := [data[2..2 + length]] + Batching.Parse(data[2 + length..], count - 1).value;
              assert found == ms <==> found[0] == m && found[1..] == rest;
              assert found[1..] == Batching.Parse(data[2 + length..], count - 1).value;
            }
          }
        }
      }
    }
  }

  lemma NothingBegins(data: Bytes)
    ensures Begins(data, [])
  {
  }

  /** What is read of a batch is exactly what its bytes begin with: its count and as
      many messages, each after its length. Anything else is refused. */
  lemma UnbatchReadsIff(data: Bytes, ms: seq<Bytes>)
    ensures Batching.Unbatch(data) == Some(ms) <==> data != [] && data[0] == |ms| && Begins(data[1..], ms)
  {
    if data != [] { ParseReads(data[1..], data[0], ms); }
    hide Begins, Batching.Parse;
  }
}
