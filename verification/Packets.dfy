/** Whole packets: a header, a typed body packed to the bit, and payload bytes. */
module Packets {
  import opened Wrappers
  import opened Bits
  import opened BitIo
  import opened Codec

  datatype PacketHeader = PacketHeader(protocolId: u32, sequence: u16, ack: u16, ackBits: u64)

  datatype PacketType =
    | ConnectionRequest
    | ConnectionChallenge(serverSalt: u64)
    | ConnectionResponse(clientSalt: u64)
    | ConnectionAccept
    | ConnectionDeny(denyReason: u8)
    | Disconnect(reason: u8)
    | KeepAlive
    | Payload(payloadChannel: u8, isFragment: bool)
    | BatchedPayload(batchChannel: u8)
    | MtuProbe(probeSize: u16)
    | MtuProbeAck(ackedSize: u16)
    | AckOnly
    | ConnectionCookie(cookieHigh: u64, cookieLow: u64)
    | ConnectionRequestWithCookie(echoedHigh: u64, echoedLow: u64)

  datatype Packet = Packet(header: PacketHeader, packetType: PacketType, payload: Bytes)

  // ---------- the layout ----------

  function HeaderSchema(): Schema { Tuple([UInt(32), UInt(16), UInt(16), UInt(64)]) }

  function TypeSchema(): Schema {
    Enum(4, [
      Tuple([]),
      Tuple([UInt(64)]),
      Tuple([UInt(64)]),
      Tuple([]),
      Tuple([UInt(8)]),
      Tuple([UInt(8)]),
      Tuple([]),
      Tuple([UInt(3), Bool]),
      Tuple([UInt(3)]),
      Tuple([UInt(16)]),
      Tuple([UInt(16)]),
      Tuple([]),
      Tuple([UInt(64), UInt(64)]),
      Tuple([UInt(64), UInt(64)])])
  }

  function HeaderValue(h: PacketHeader): Value {
    Items([Num(h.protocolId), Num(h.sequence), Num(h.ack), Num(h.ackBits)])
  }

  function TypeValue(t: PacketType): Value {
    match t
    case ConnectionRequest => Variant(0, Items([]))
    case ConnectionChallenge(salt) => Variant(1, Items([Num(salt)]))
    case ConnectionResponse(salt) => Variant(2, Items([Num(salt)]))
    case ConnectionAccept => Variant(3, Items([]))
    case ConnectionDeny(reason) => Variant(4, Items([Num(reason)]))
    case Disconnect(reason) => Variant(5, Items([Num(reason)]))
    case KeepAlive => Variant(6, Items([]))
    case Payload(channel, isFragment) => Variant(7, Items([Num(channel), Flag(isFragment)]))
    case BatchedPayload(channel) => Variant(8, Items([Num(channel)]))
    case MtuProbe(size) => Variant(9, Items([Num(size)]))
    case MtuProbeAck(size) => Variant(10, Items([Num(size)]))
    case AckOnly => Variant(11, Items([]))
    case ConnectionCookie(high, low) => Variant(12, Items([Num(high), Num(low)]))
    case ConnectionRequestWithCookie(high, low) => Variant(13, Items([Num(high), Num(low)]))
  }

  /** The channel number, where there is one, fits its three bits. */
  predicate ChannelFits(t: PacketType) {
    (t.Payload? ==> t.payloadChannel < 8) && (t.BatchedPayload? ==> t.batchChannel < 8)
  }

  // ---------- records of plain fields ----------

  predicate IsField(field: Schema, v: Value) {
    (field.UInt? && v.Num? && v.n < Pow2(field.bits)) || (field.Bool? && v.Flag?)
  }

  predicate IsRecord(fields: seq<Schema>, v: Value) {
    v.Items? && |v.items| == |fields| && forall i :: 0 <= i < |fields| ==> IsField(fields[i], v.items[i])
  }

  predicate Plain(fields: seq<Schema>) {
    forall i :: 0 <= i < |fields| ==> fields[i].UInt? || fields[i].Bool?
  }

  predicate SameKind(field: Schema, v: Value) { (field.UInt? && v.Num?) || (field.Bool? && v.Flag?) }

  lemma {:induction false} PlainParts(fields: seq<Schema>, vs: seq<Value>, n: nat)
    requires Plain(fields) && n <= |fields| && n <= |vs|
    ensures PartsHaveShape(Tuple(fields), vs, n) <==> (forall i :: 0 <= i < n ==> SameKind(fields[i], vs[i]))
    ensures (PartsHaveShape(Tuple(fields), vs, n) && PartsFit(Tuple(fields), vs, n))
       <==> (forall i :: 0 <= i < n ==> IsField(fields[i], vs[i]))
  {
    if n > 0 {
      PlainParts(fields, vs, n - 1);
      assert Part(Tuple(fields), n - 1) == fields[n - 1];
    }
  }

  lemma PlainRecord(fields: seq<Schema>, v: Value)
    requires Plain(fields)
    ensures HasShape(Tuple(fields), v)
       <==> v.Items? && |v.items| == |fields| && forall i :: 0 <= i < |fields| ==> SameKind(fields[i], v.items[i])
    ensures (HasShape(Tuple(fields), v) && Fits(Tuple(fields), v)) <==> IsRecord(fields, v)
  {
    hide IsField, SameKind;
    if v.Items? && |v.items| == |fields| { PlainParts(fields, v.items, |fields|); }
  }

  lemma HeaderIsPlain()
    ensures WellFormed(HeaderSchema()) && Plain(HeaderSchema().fields)
  {
  }

  lemma VariantIsPlain(i: nat)
    requires i < |TypeSchema().variants|
    ensures var variant := TypeSchema().variants[i]; variant.Tuple? && Plain(variant.fields) && WellFormed(variant)
  {
  }

  lemma TypeIsWellFormed()
    ensures WellFormed(TypeSchema())
  {
    forall i | 0 <= i < 14 ensures WellFormed(TypeSchema().variants[i]) { VariantIsPlain(i); }
    assert Pow2(4) == 16;
  }

  predicate IsHeaderValue(v: Value) { IsRecord(HeaderSchema().fields, v) }

  predicate IsTypeValue(v: Value) {
    v.Variant? && v.index < 14 && IsRecord(TypeSchema().variants[v.index].fields, v.body)
  }

  lemma HeaderValues(h: PacketHeader)
    ensures IsHeaderValue(HeaderValue(h)) && HasShape(HeaderSchema(), HeaderValue(h))
        && Fits(HeaderSchema(), HeaderValue(h))
  {
    WordSizes();
    HeaderIsPlain();
    PlainRecord(HeaderSchema().fields, HeaderValue(h));
    hide HasShape, Fits, Pow2;
  }

  lemma TypeIsValue(t: PacketType)
    ensures IsTypeValue(TypeValue(t)) <==> ChannelFits(t)
  {
    WordSizes();
    hide Pow2;
    var v := TypeValue(t);
    if t.Payload? || t.BatchedPayload? {
      assert IsField(TypeSchema().variants[v.index].fields[0], v.body.items[0]) <==> v.body.items[0].n < 8;
    }
  }

  lemma TypeShape(t: PacketType)
    ensures var v := TypeValue(t);
      HasShape(TypeSchema(), v) && v.index < 14 && HasShape(TypeSchema().variants[v.index], v.body)
  {
    var v := TypeValue(t);
    VariantIsPlain(v.index);
    PlainRecord(TypeSchema().variants[v.index].fields, v.body);
    hide PartsHaveShape, Fits;
  }

  lemma TypeValues(t: PacketType)
    ensures HasShape(TypeSchema(), TypeValue(t))
    ensures Fits(TypeSchema(), TypeValue(t)) <==> ChannelFits(t)
    ensures IsTypeValue(TypeValue(t)) <==> ChannelFits(t)
  {
    TypeShape(t);
    TypeIsValue(t);
    var v := TypeValue(t);
    VariantIsPlain(v.index);
    PlainRecord(TypeSchema().variants[v.index].fields, v.body);
    hide TypeValue, ChannelFits, HasShape, IsRecord, PartsFit;
  }

  function HeaderFrom(v: Value): PacketHeader
    requires IsHeaderValue(v)
  {
    WordSizes();
    PacketHeader(v.items[0].n, v.items[1].n, v.items[2].n, v.items[3].n)
  }

  function TypeFrom(v: Value): PacketType
    requires IsTypeValue(v)
  {
    WordSizes();
    var fields := v.body.items;
    match v.index
    case 0 => ConnectionRequest
    case 1 => ConnectionChallenge(fields[0].n)
    case 2 => ConnectionResponse(fields[0].n)
    case 3 => ConnectionAccept
    case 4 => ConnectionDeny(fields[0].n)
    case 5 => Disconnect(fields[0].n)
    case 6 => KeepAlive
    case 7 => Payload(fields[0].n, fields[1].b)
    case 8 => BatchedPayload(fields[0].n)
    case 9 => MtuProbe(fields[0].n)
    case 10 => MtuProbeAck(fields[0].n)
    case 11 => AckOnly
    case 12 => ConnectionCookie(fields[0].n, fields[1].n)
    case _ => ConnectionRequestWithCookie(fields[0].n, fields[1].n)
  }

  lemma HeaderBothWays(h: PacketHeader)
    ensures IsHeaderValue(HeaderValue(h)) && HeaderFrom(HeaderValue(h)) == h
  {
    HeaderValues(h);
  }

  lemma HeaderBack(v: Value)
    requires IsHeaderValue(v)
    ensures HeaderValue(HeaderFrom(v)) == v
  {
    hide Pow2;
  }

  lemma TypeBothWays(t: PacketType)
    requires ChannelFits(t)
    ensures IsTypeValue(TypeValue(t)) && TypeFrom(TypeValue(t)) == t
  {
    TypeValues(t);
  }

  lemma TypeBack(v: Value)
    requires IsTypeValue(v)
    ensures TypeValue(TypeFrom(v)) == v && ChannelFits(TypeFrom(v))
  {
    WordSizes();
    hide Pow2;
  }

  // ---------- packets as bits ----------

  /** The header and the type, as bits. */
  function PacketBits(p: Packet): (s: BitString) {
    HeaderValues(p.header);
    TypeValues(p.packetType);
    Emit(HeaderSchema(), HeaderValue(p.header)).bits + Emit(TypeSchema(), TypeValue(p.packetType)).bits
  }

  function Padding(n: nat): nat { (8 - n % 8) % 8 }

  /** The whole bytes that `n` bits take. */
  function BytesFor(n: nat): nat { (n + Padding(n)) / 8 }

  /** Header and type, zeros to the next byte, then the payload. */
  ghost predicate IsPacket(p: Packet, data: Bytes) {
    var bits := PacketBits(p);
    var n := BytesFor(|bits|);
    && n <= |data|
    && AllBits(data[..n]) == bits + Zeros(Padding(|bits|))
    && data[n..] == p.payload
  }

  /** What the reader makes of some bytes. */
  function Deserialized(data: Bytes): (r: Result<Packet, IoError>) {
    if data == [] then Failure(InvalidData)
    else
      HeaderIsPlain();
      TypeIsWellFormed();
      var h :- Parse(HeaderSchema(), AllBits(data));
      var t :- Parse(TypeSchema(), h.rest);
      ReadsHeader(AllBits(data));
      ReadsType(h.rest);
      var n := BytesFor(8 * |data| - |t.rest|);
      Success(Packet(HeaderFrom(h.value), TypeFrom(t.value), data[n..]))
  }

  lemma ReadsHeader(s: BitString)
    ensures WellFormed(HeaderSchema())
    ensures Parse(HeaderSchema(), s).Success? ==>
      var p := Parse(HeaderSchema(), s).value;
      IsHeaderValue(p.value) && HasShape(HeaderSchema(), p.value) && s == Emit(HeaderSchema(), p.value).bits + p.rest
  {
    HeaderIsPlain();
    if Parse(HeaderSchema(), s).Success? {
      var p := Parse(HeaderSchema(), s).value;
      ReadsOnlyWritten(HeaderSchema(), s);
      WritesIffFits(HeaderSchema(), p.value);
      PlainRecord(HeaderSchema().fields, p.value);
      hide Parse, Emit, HasShape, Fits;
    }
  }

  lemma ReadsType(s: BitString)
    ensures WellFormed(TypeSchema())
    ensures Parse(TypeSchema(), s).Success? ==>
      var p := Parse(TypeSchema(), s).value;
      IsTypeValue(p.value) && HasShape(TypeSchema(), p.value) && s == Emit(TypeSchema(), p.value).bits + p.rest
  {
    TypeIsWellFormed();
    if Parse(TypeSchema(), s).Success? {
      var p := Parse(TypeSchema(), s).value;
      ReadsOnlyWritten(TypeSchema(), s);
      WritesIffFits(TypeSchema(), p.value);
      FittingType(p.value);
    }
  }

  lemma FittingType(v: Value)
    requires HasShape(TypeSchema(), v) && Fits(TypeSchema(), v)
    ensures IsTypeValue(v)
  {
    VariantIsPlain(v.index);
    PlainRecord(TypeSchema().variants[v.index].fields, v.body);
    hide PartsHaveShape, PartsFit, IsRecord;
  }

  lemma ZeroBitString(n: nat)
    ensures BigEndian(0, n) == Zeros(n)
  {
    forall i | 0 <= i < n ensures BigEndian(0, n)[i] == Zeros(n)[i] { ZeroBits(n - 1 - i); }
  }

  lemma PaddingCompletes(n: nat)
    ensures (n + Padding(n)) % 8 == 0 && Padding(n + Padding(n)) == 0
    ensures 8 * BytesFor(n) == n + Padding(n)
  {
  }

  lemma WholePacket(p: Packet, bytes: Bytes)
    requires AllBits(bytes) == PacketBits(p) + Zeros(Padding(|PacketBits(p)|))
    ensures IsPacket(p, bytes + p.payload)
  {
    PaddingCompletes(|PacketBits(p)|);
    hide PacketBits, Padding, BytesFor;
    assert (bytes + p.payload)[..|bytes|] == bytes && (bytes + p.payload)[|bytes|..] == p.payload;
  }

  /** Pads to a whole byte and gives up the bytes. */
  method PadAndFinish(buffer: BitBuffer) returns (bytes: Bytes)
    requires buffer.WriterValid() && !buffer.measureOnly
    modifies buffer`buffer, buffer`bitPos, buffer`unpaddedLength
    ensures AllBits(bytes) == old(buffer.Written()) + Zeros(Padding(old(buffer.bitPos)))
  {
    hide Slice, ZeroFrom, Zeros, BigEndian;
    ghost var bits := buffer.Written();
    assert |bits| == buffer.bitPos;
    var padding := (8 - buffer.bitPos % 8) % 8;
    if padding > 0 {
      var _ := buffer.WriteBits(0, padding);
      ZeroBitString(padding);
    }
    PaddingCompletes(|bits|);
    ghost var all := bits + Zeros(padding);
    assert buffer.Written() == all;
    bytes := buffer.IntoBytes(true);
    assert all + Zeros(0) == all;
  }

  lemma WhatIsWritten(p: Packet)
    ensures
      var h, v := HeaderValue(p.header), TypeValue(p.packetType);
      && WellFormed(HeaderSchema()) && HasShape(HeaderSchema(), h)
      && WellFormed(TypeSchema()) && HasShape(TypeSchema(), v)
      && Emit(HeaderSchema(), h).r == Pass
      && Emit(TypeSchema(), v).r == (if ChannelFits(p.packetType) then Pass else Fail(InvalidData))
      && PacketBits(p) == Emit(HeaderSchema(), h).bits + Emit(TypeSchema(), v).bits
  {
    HeaderIsPlain();
    TypeIsWellFormed();
    HeaderValues(p.header);
    TypeValues(p.packetType);
    WritesIffFits(HeaderSchema(), HeaderValue(p.header));
    WritesIffFits(TypeSchema(), TypeValue(p.packetType));
    hide Emit, Fits, HasShape, WellFormed, ChannelFits, HeaderValue, TypeValue, HeaderSchema, TypeSchema;
  }

  method Serialize(p: Packet) returns (r: Result<Bytes, IoError>)
    ensures r.Success? <==> ChannelFits(p.packetType)
    ensures r.Success? ==> IsPacket(p, r.value)
    ensures r.Failure? ==> r.error == InvalidData
  {
    hide *;
    WhatIsWritten(p);
    var buffer := new BitBuffer.New();
    NothingYet(buffer);
    var written := BitSerialize(HeaderSchema(), HeaderValue(p.header), buffer);
    FreshlyWritten(buffer, Emit(HeaderSchema(), HeaderValue(p.header)).bits);
    if written.Pass? { written := BitSerialize(TypeSchema(), TypeValue(p.packetType), buffer); }
    if written.Fail? { return Failure(written.error); }
    AppendedSecond(buffer, Emit(HeaderSchema(), HeaderValue(p.header)).bits,
        Emit(TypeSchema(), TypeValue(p.packetType)).bits);
    var headerBytes := PadAndFinish(buffer);
    WholePacket(p, headerBytes);
    return Success(headerBytes + p.payload);
  }

  lemma NothingYet(buffer: BitBuffer)
    requires buffer.WriterValid() && !buffer.measureOnly && buffer.Written() == []
    ensures buffer.SoFar() == []
  {
  }

  lemma AppendedSecond(buffer: BitBuffer, first: BitString, next: BitString)
    requires !buffer.measureOnly && buffer.Appended(|first|, first, next)
    ensures buffer.WriterValid() && buffer.Written() == first + next && buffer.bitPos == |first + next|
  {
  }

  lemma FreshlyWritten(buffer: BitBuffer, s: BitString)
    requires !buffer.measureOnly && buffer.Appended(0, [], s)
    ensures buffer.WriterValid() && buffer.SoFar() == s && buffer.bitPos == |s|
  {
  }

  /** Skips to the next whole byte: what follows is the payload. */
  method TakePayload(buffer: BitBuffer, data: Bytes) returns (payload: Bytes)
    requires buffer.ReaderValid() && buffer.buffer == data
    modifies buffer`readPos
    ensures var n := BytesFor(8 * |data| - |old(buffer.Unread())|); n <= |data| && payload == data[n..]
  {
    hide Slice;
    ghost var used := buffer.readPos;
    assert used == 8 * |data| - |buffer.Unread()|;
    PaddingCompletes(used);
    while buffer.readPos % 8 != 0
      invariant buffer.ReaderValid() && used <= buffer.readPos <= used + Padding(used)
      decreases used + Padding(used) - buffer.readPos
    {
      // The bits of the last byte are all there, so this cannot fail.
      var _ := buffer.ReadBit();
    }
    var headerSize := buffer.readPos / 8;
    payload := if headerSize < |data| then data[headerSize..] else [];
  }

  lemma WhatIsRead(data: Bytes)
    ensures WellFormed(HeaderSchema()) && WellFormed(TypeSchema())
    ensures data == [] ==> Deserialized(data) == Failure(InvalidData)
    ensures data != [] ==>
      match Parse(HeaderSchema(), AllBits(data))
      case Failure(e) => Deserialized(data) == Failure(e)
      case Success(h) =>
        match Parse(TypeSchema(), h.rest)
        case Failure(e) => Deserialized(data) == Failure(e)
        case Success(t) =>
          && IsHeaderValue(h.value) && IsTypeValue(t.value) && |t.rest| <= 8 * |data|
          && var n := BytesFor(8 * |data| - |t.rest|);
          n <= |data| && Deserialized(data) == Success(Packet(HeaderFrom(h.value), TypeFrom(t.value), data[n..]))
  {
    HeaderIsPlain();
    TypeIsWellFormed();
    hide Parse, WellFormed, IsHeaderValue, IsTypeValue, HeaderFrom, TypeFrom, HeaderSchema, TypeSchema, Emit, Slice;
    if Parse(HeaderSchema(), AllBits(data)).Success? {
      ReadsHeader(AllBits(data));
      ReadsType(Parse(HeaderSchema(), AllBits(data)).value.rest);
    }
  }

  method Deserialize(data: Bytes) returns (r: Result<Packet, IoError>)
    ensures r == Deserialized(data)
  {
    hide *;
    WhatIsRead(data);
    if data == [] { return Failure(InvalidData); }
    var buffer := new BitBuffer.FromBytes(data);
    var header := BitDeserialize(HeaderSchema(), buffer);
    if header.Failure? { return Failure(header.error); }
    var packetType := BitDeserialize(TypeSchema(), buffer);
    if packetType.Failure? { return Failure(packetType.error); }
    var payload := TakePayload(buffer, data);
    r := Success(Packet(HeaderFrom(header.value), TypeFrom(packetType.value), payload));
  }

  // ---------- round trips ----------

  lemma BytesConcat(a: Bytes, b: Bytes)
    ensures AllBits(a + b) == AllBits(a) + AllBits(b)
  {
    SliceSplit(a + b, 0, 8 * |a|, 8 * |b|);
    forall i | 0 <= i < 8 * |b| ensures Slice(a + b, 8 * |a|, 8 * |b|)[i] == AllBits(b)[i] {
      assert (8 * |a| + i) / 8 == |a| + i / 8 && (8 * |a| + i) % 8 == i % 8;
    }
    forall i | 0 <= i < 8 * |a| ensures Slice(a + b, 0, 8 * |a|)[i] == AllBits(a)[i] { }
  }

  lemma PacketAsBits(p: Packet, data: Bytes)
    requires IsPacket(p, data)
    ensures
      var bits := PacketBits(p);
      var rest := Zeros(Padding(|bits|)) + AllBits(p.payload);
      && AllBits(data) == bits + rest && 8 * |data| - |rest| == |bits|
      && BytesFor(|bits|) <= |data| && data[BytesFor(|bits|)..] == p.payload
  {
    hide PacketBits, Slice, Zeros;
    var bits := PacketBits(p);
    var n := BytesFor(|bits|);
    assert data == data[..n] + data[n..];
    BytesConcat(data[..n], data[n..]);
    AppendedTwice(bits, Zeros(Padding(|bits|)), AllBits(p.payload));
  }

  lemma NotEmpty(p: Packet)
    ensures PacketBits(p) != []
  {
    var v := TypeValue(p.packetType);
    TypeValues(p.packetType);
    WhatIsWritten(p);
    assert |Emit(TypeSchema(), v).bits| >= 4;
  }

  /** Every packet whose channel fits its three bits survives the trip. */
  lemma PacketRoundTrip(p: Packet, data: Bytes)
    requires ChannelFits(p.packetType) && IsPacket(p, data)
    ensures Deserialized(data) == Success(p)
  {
    hide *;
    PacketAsBits(p, data);
    NotEmpty(p);
    WhatIsWritten(p);
    WhatIsRead(data);
    var rest := Zeros(Padding(|PacketBits(p)|)) + AllBits(p.payload);
    var h, v := HeaderValue(p.header), TypeValue(p.packetType);
    AppendedTwice(Emit(HeaderSchema(), h).bits, Emit(TypeSchema(), v).bits, rest);
    RoundTrip(HeaderSchema(), h, Emit(TypeSchema(), v).bits + rest);
    RoundTrip(TypeSchema(), v, rest);
    HeaderBothWays(p.header);
    TypeBothWays(p.packetType);
  }

  /** What is accepted is the packet's own encoding, but for the bits that fill
      up its last byte. */
  lemma AcceptedIsPacket(data: Bytes)
    requires Deserialized(data).Success?
    ensures
      var p := Deserialized(data).value;
      var bits := PacketBits(p);
      && ChannelFits(p.packetType)
      && |bits| <= 8 * |data| && AllBits(data)[..|bits|] == bits
      && BytesFor(|bits|) <= |data| && data[BytesFor(|bits|)..] == p.payload
  {
    hide *;
    WhatIsRead(data);
    var all := AllBits(data);
    ReadsHeader(all);
    var h := Parse(HeaderSchema(), all).value;
    ReadsType(h.rest);
    var t := Parse(TypeSchema(), h.rest).value;
    var p := Deserialized(data).value;
    WhatIsWritten(p);
    HeaderBack(h.value);
    TypeBack(t.value);
    AppendedTwice(Emit(HeaderSchema(), h.value).bits, Emit(TypeSchema(), t.value).bits, t.rest);
    assert all == PacketBits(p) + t.rest;
  }
}
