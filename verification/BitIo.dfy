/** The bit-level read/write buffer: a byte fast path and a masked slow path,
    both refining one sequence of bits. */
module BitIo {
  import opened Wrappers
  import opened Bits

  datatype IoError = UnexpectedEof | InvalidInput | InvalidData

  type BitString = seq<bool>

  // ---------- bit strings and the numbers they spell ----------

  /** The low `n` bits of `v`, most significant first. */
  function BigEndian(v: nat, n: nat): (s: BitString)
    ensures |s| == n
  {
    seq(n, i requires 0 <= i < n => TestBit(v, n - 1 - i))
  }

  /** The number a bit string spells, most significant bit first. */
  function FromBits(s: BitString): nat {
    if s == [] then 0 else 2 * FromBits(s[..|s| - 1]) + Bit(s[|s| - 1])
  }

  lemma {:induction false} FromBitsBound(s: BitString)
    ensures FromBits(s) < Pow2(|s|)
  {
    if s != [] { FromBitsBound(s[..|s| - 1]); }
  }

  lemma {:induction false} FromBitsBit(s: BitString, i: nat)
    requires i < |s|
    ensures TestBit(FromBits(s), i) <==> s[|s| - 1 - i]
  {
    Halve(FromBits(s[..|s| - 1]), s[|s| - 1]);
    if i > 0 { FromBitsBit(s[..|s| - 1], i - 1); }
  }

  /** A string of n bits and a number below 2^n determine one another. */
  lemma BitsRoundTrip(s: BitString)
    ensures BigEndian(FromBits(s), |s|) == s
  {
    forall i | 0 <= i < |s|
      ensures BigEndian(FromBits(s), |s|)[i] == s[i]
    {
      FromBitsBit(s, |s| - 1 - i);
    }
  }

  lemma ValueRoundTrip(v: nat, n: nat)
    ensures FromBits(BigEndian(v, n)) == v % Pow2(n)
  {
    var s := BigEndian(v, n);
    FromBitsBound(s);
    LowBound(v, n);
    LowIsMod(v, n);
    forall i: nat | i < n
      ensures TestBit(FromBits(s), i) <==> TestBit(Low(v, n), i)
    {
      FromBitsBit(s, i);
      LowBit(v, n, i);
    }
    SameBits(FromBits(s), Low(v, n), n);
  }

  lemma OnlyLowBitsCount(v: nat, n: nat)
    ensures BigEndian(v % Pow2(n), n) == BigEndian(v, n)
  {
    LowIsMod(v, n);
    forall i | 0 <= i < n
      ensures BigEndian(Low(v, n), n)[i] == BigEndian(v, n)[i]
    {
      LowBit(v, n, n - 1 - i);
    }
  }

  /** A value written in two pieces: its high bits, then its low bits. */
  lemma BigEndianSplit(v: nat, high: nat, low: nat)
    ensures BigEndian(v, high + low) == BigEndian(Shr(v, low), high) + BigEndian(v, low)
  {
    forall i | 0 <= i < high
      ensures BigEndian(v, high + low)[i] == BigEndian(Shr(v, low), high)[i]
    {
      ShrBit(v, low, high - 1 - i);
    }
  }

  // ---------- bits held in bytes ----------

  /** Bit `p` of a byte buffer, the most significant bit of each byte first. */
  predicate BitAt(buffer: Bytes, p: nat)
    requires p < 8 * |buffer|
  {
    TestBit(buffer[p / 8], 7 - p % 8)
  }

  function Slice(buffer: Bytes, from: nat, n: nat): (s: BitString)
    requires from + n <= 8 * |buffer|
    ensures |s| == n
  {
    seq(n, i requires 0 <= i < n => BitAt(buffer, from + i))
  }

  function AllBits(buffer: Bytes): (s: BitString)
    ensures |s| == 8 * |buffer|
  {
    Slice(buffer, 0, 8 * |buffer|)
  }

  ghost predicate ZeroFrom(buffer: Bytes, pos: nat) {
    forall p: nat :: pos <= p < 8 * |buffer| ==> !BitAt(buffer, p)
  }

  lemma SliceSplit(buffer: Bytes, from: nat, m: nat, n: nat)
    requires from + m + n <= 8 * |buffer|
    ensures Slice(buffer, from, m + n) == Slice(buffer, from, m) + Slice(buffer, from + m, n)
  {
  }

  lemma ByteIsItsBits(buffer: Bytes, k: nat)
    requires k < |buffer|
    ensures Slice(buffer, 8 * k, 8) == BigEndian(buffer[k], 8)
  {
    forall i | 0 <= i < 8
      ensures Slice(buffer, 8 * k, 8)[i] == BigEndian(buffer[k], 8)[i]
    {
      assert (8 * k + i) / 8 == k && (8 * k + i) % 8 == i;
      assert Slice(buffer, 8 * k, 8)[i] == BitAt(buffer, 8 * k + i);
      assert BigEndian(buffer[k], 8)[i] == TestBit(buffer[k], 7 - i);
    }
  }

  /** Or-ing `v` into the free low end of the last byte appends its bits. */
  lemma PlaceBits(buffer: Bytes, after: Bytes, pos: nat, k: nat, v: nat)
    requires pos < 8 * |buffer| <= pos + 8 && k <= 8 - pos % 8
    requires v < Pow2(k) && ZeroFrom(buffer, pos)
    requires var word := Or(buffer[pos / 8], Shl(v, 8 - pos % 8 - k));
             word < 0x100 && after == buffer[pos / 8 := word]
    ensures Slice(after, 0, pos + k) == Slice(buffer, 0, pos) + BigEndian(v, k)
    ensures ZeroFrom(after, pos + k)
  {
    var shift := 8 - pos % 8 - k;
    forall p: nat | p < 8 * |buffer|
      ensures BitAt(after, p) <==>
                if p < pos then BitAt(buffer, p)
                else p < pos + k && BigEndian(v, k)[p - pos]
    {
      if p / 8 == pos / 8 {
        var i := 7 - p % 8;
        OrBit(buffer[pos / 8], Shl(v, shift), i);
        ShlBit(v, shift, i);
        if pos <= p { assert !BitAt(buffer, p); }
        if p < pos { HighBitsZero(v, k, i - shift); }
      }
    }
    hide BitAt, Or, Shl, Pow2;
  }

  lemma PlacedByteFits(b: u8, v: nat, k: nat, offset: nat)
    requires v < Pow2(k) && k + offset <= 8
    ensures Or(b, Shl(v, 8 - offset - k)) < 0x100
  {
    ByteMask();
    ShlBound(v, 8 - offset - k, k);
    Pow2Mono(8 - offset, 8);
    OrBound(b, Shl(v, 8 - offset - k), 8);
  }

  /** A byte of zeros pushed at the end changes no earlier bit. */
  lemma PushZero(buffer: Bytes, pos: nat)
    requires pos <= 8 * |buffer| && ZeroFrom(buffer, pos)
    ensures Slice(buffer + [0], 0, pos) == Slice(buffer, 0, pos)
    ensures ZeroFrom(buffer + [0], pos)
  {
    forall p: nat | p < 8 * |buffer| + 8
      ensures BitAt(buffer + [0], p) <==> p < 8 * |buffer| && BitAt(buffer, p)
    {
      ZeroBits(7 - p % 8);
    }
  }

  lemma PushByte(buffer: Bytes, b: u8)
    ensures AllBits(buffer + [b]) == AllBits(buffer) + BigEndian(b, 8)
  {
    SliceSplit(buffer + [b], 0, 8 * |buffer|, 8);
    ByteIsItsBits(buffer + [b], |buffer|);
    assert Slice(buffer + [b], 0, 8 * |buffer|) == AllBits(buffer);
  }

  function Zeros(n: nat): (s: BitString)
    ensures |s| == n
  {
    seq(n, _ => false)
  }

  /** The first `done` of the bits asked for stand at the top of `value`. */
  ghost predicate PartRead(buffer: Bytes, start: nat, done: nat, rest: nat, value: nat) {
    && start + done <= 8 * |buffer|
    && value < Pow2(done + rest)
    && BigEndian(value, done + rest) == Slice(buffer, start, done) + Zeros(rest)
  }

  /** One turn of the masked read: the next k bits of a byte land just below
      the bits read so far. */
  lemma TakeBits(buffer: Bytes, start: nat, done: nat, k: nat, rest: nat, value: nat)
    requires start + done + k <= 8 * |buffer| && k >= 1
    requires (start + done) % 8 + k <= 8
    requires PartRead(buffer, start, done, k + rest, value)
    ensures
      var pos := start + done;
      var piece := And(Shr(buffer[pos / 8], 8 - pos % 8 - k), Mask(k));
      PartRead(buffer, start, done + k, rest, Or(value, Shl(piece, rest)))
  {
    var n, pos := done + k + rest, start + done;
    var shift := 8 - pos % 8 - k;
    var piece := And(Shr(buffer[pos / 8], shift), Mask(k));
    var after := Or(value, Shl(piece, rest));
    MaskIsLow(Shr(buffer[pos / 8], shift), k);
    LowBound(Shr(buffer[pos / 8], shift), k);
    ShlBound(piece, rest, k);
    Pow2Mono(k + rest, n);
    OrBound(value, Shl(piece, rest), n);
    forall j | 0 <= j < n
      ensures BigEndian(after, n)[j] == (Slice(buffer, start, done + k) + Zeros(rest))[j]
    {
      TakenBit(buffer, start, done, k, rest, value, j);
    }
  }

  lemma TakenBit(buffer: Bytes, start: nat, done: nat, k: nat, rest: nat, value: nat, j: nat)
    requires start + done + k <= 8 * |buffer| && k >= 1
    requires (start + done) % 8 + k <= 8 && j < done + k + rest
    requires PartRead(buffer, start, done, k + rest, value)
    ensures
      var pos, i := start + done, done + k + rest - 1 - j;
      var piece := And(Shr(buffer[pos / 8], 8 - pos % 8 - k), Mask(k));
      TestBit(Or(value, Shl(piece, rest)), i) <==> (Slice(buffer, start, done + k) + Zeros(rest))[j]
  {
    var pos, i := start + done, done + k + rest - 1 - j;
    var shift := 8 - pos % 8 - k;
    var piece := And(Shr(buffer[pos / 8], shift), Mask(k));
    assert BigEndian(value, done + k + rest)[j] == (Slice(buffer, start, done) + Zeros(k + rest))[j];
    MaskIsLow(Shr(buffer[pos / 8], shift), k);
    OrBit(value, Shl(piece, rest), i);
    ShlBit(piece, rest, i);
    hide Pow2, Or, Shl, Shr, And, Low, TestBit;
    if i >= rest {
      LowBit(Shr(buffer[pos / 8], shift), k, i - rest);
      if i < rest + k {
        ShrBit(buffer[pos / 8], shift, i - rest);
        assert (start + j) / 8 == pos / 8 && 7 - (start + j) % 8 == i - rest + shift;
        assert Slice(buffer, start, done + k)[j] == BitAt(buffer, start + j);
      }
    }
  }

  // ---------- the buffer ----------

  /** The first `pos` bits of `before`, then `s`, then zeros to the end of the
      last byte. */
  ghost predicate Extended(before: Bytes, pos: nat, after: Bytes, s: BitString)
    requires pos <= 8 * |before|
  {
    && |after| == (pos + |s| + 7) / 8
    && Slice(after, 0, pos + |s|) == Slice(before, 0, pos) + s
    && ZeroFrom(after, pos + |s|)
  }

  class BitBuffer {
    var buffer: Bytes
    var bitPos: nat
    var readPos: nat
    var unpaddedLength: nat
    const measureOnly: bool

    /** What holds of a buffer that was created empty and only written to. */
    ghost predicate WriterValid()
      reads this
    {
      && unpaddedLength == bitPos
      && if measureOnly then buffer == []
         else |buffer| == (bitPos + 7) / 8 && ZeroFrom(buffer, bitPos)
    }

    /** The bits written so far. */
    ghost function Written(): BitString
      requires WriterValid() && !measureOnly
      reads this
    {
      Slice(buffer, 0, bitPos)
    }

    ghost predicate ReaderValid()
      reads this
    {
      readPos <= 8 * |buffer|
    }

    /** The bits a reader has still ahead of it. */
    ghost function Unread(): BitString
      requires ReaderValid()
      reads this
    {
      AllBits(buffer)[readPos..]
    }

    /** The bits `s` have been written, in either mode, since `bitPos` was
        `from` and, outside measure mode, `before` had been written. */
    ghost predicate Appended(from: nat, before: BitString, s: BitString)
      reads this
    {
      && WriterValid()
      && bitPos == from + |s|
      && (!measureOnly ==> Written() == before + s)
    }

    ghost function SoFar(): BitString
      requires WriterValid()
      reads this
    {
      if measureOnly then [] else Written()
    }

    constructor New()
      ensures WriterValid() && ReaderValid() && !measureOnly && bitPos == 0 && Written() == []
    {
      buffer, bitPos, readPos, unpaddedLength, measureOnly := [], 0, 0, 0, false;
    }

    constructor Measure()
      ensures WriterValid() && measureOnly && bitPos == 0
    {
      buffer, bitPos, readPos, unpaddedLength, measureOnly := [], 0, 0, 0, true;
    }

    constructor FromBytes(bytes: Bytes)
      ensures ReaderValid() && buffer == bytes && Unread() == AllBits(bytes)
      ensures readPos == bitPos == unpaddedLength == 0 && !measureOnly
    {
      buffer, bitPos, readPos, unpaddedLength, measureOnly := bytes, 0, 0, 0, false;
    }

    method WriteBit(bit: bool)
      requires WriterValid()
      modifies this`buffer, this`bitPos, this`unpaddedLength
      ensures Appended(old(bitPos), old(SoFar()), [bit])
    {
      if measureOnly {
        bitPos, unpaddedLength := bitPos + 1, unpaddedLength + 1;
        return;
      }
      var bytePos, bitOffset := bitPos / 8, bitPos % 8;
      if bytePos >= |buffer| {
        PushZero(buffer, bitPos);
        buffer := buffer + [0];
      }
      var single := Shl(1, 7 - bitOffset);
      PlaceOneBit(buffer, bitPos, bit);
      if bit {
        buffer := buffer[bytePos := Or(buffer[bytePos], single)];
      } else {
        buffer := buffer[bytePos := And(buffer[bytePos], 255 - single)];
      }
      bitPos, unpaddedLength := bitPos + 1, unpaddedLength + 1;
    }

    method WriteBits(value: u64, bits: nat) returns (r: Outcome<IoError>)
      requires WriterValid()
      modifies this`buffer, this`bitPos, this`unpaddedLength
      ensures r == if bits > 64 then Fail(InvalidInput) else Pass
      ensures Appended(old(bitPos), old(SoFar()), if bits > 64 then [] else BigEndian(value, bits))
    {
      if bits > 64 { return Fail(InvalidInput); }
      if bits == 0 { return Pass; }
      var val := if bits >= 64 then value else And(value, Mask(bits));
      MaskedValue(value, bits);
      hide BigEndian, Pow2, And, Mask, Slice, ZeroFrom;
      if bitPos % 8 == 0 && bits % 8 == 0 {
        WriteBytesFast(val, bits / 8);
      } else {
        WriteBitsOptimized(val, bits);
      }
      return Pass;
    }

    method WriteBytesFast(value: u64, bytes: nat)
      requires WriterValid() && bitPos % 8 == 0
      modifies this`buffer, this`bitPos, this`unpaddedLength
      ensures bitPos == old(bitPos) + 8 * bytes && unpaddedLength == old(unpaddedLength) + 8 * bytes
      ensures if measureOnly then buffer == old(buffer)
              else Extended(old(buffer), old(bitPos), buffer, BigEndian(value, 8 * bytes))
    {
      if measureOnly {
        bitPos, unpaddedLength := bitPos + bytes * 8, unpaddedLength + bytes * 8;
        return;
      }
      ghost var start := buffer;
      for i := 0 to bytes
        invariant |buffer| == |start| + i
        invariant AllBits(buffer) == AllBits(start) + BigEndian(Shr(value, 8 * (bytes - i)), 8 * i)
        invariant bitPos == old(bitPos) && unpaddedLength == old(unpaddedLength)
      {
        var byte := And(Shr(value, 8 * (bytes - 1 - i)), 0xFF);
        FastWriteStep(start, buffer, value, bytes, i);
        buffer := buffer + [byte];
      }
      bitPos, unpaddedLength := bitPos + bytes * 8, unpaddedLength + bytes * 8;
      assert Shr(value, 0) == value;
      assert Slice(buffer, 0, bitPos) == AllBits(buffer) && Slice(start, 0, old(bitPos)) == AllBits(start);
    }

    method WriteBitsOptimized(value: u64, bits: nat)
      requires WriterValid() && 0 < bits <= 64 && value < Pow2(bits)
      modifies this`buffer, this`bitPos, this`unpaddedLength
      ensures bitPos == old(bitPos) + bits && unpaddedLength == old(unpaddedLength) + bits
      ensures if measureOnly then buffer == old(buffer)
              else Extended(old(buffer), old(bitPos), buffer, BigEndian(value, bits))
    {
      if measureOnly {
        bitPos, unpaddedLength := bitPos + bits, unpaddedLength + bits;
        return;
      }
      assert |buffer| == (bitPos + 7) / 8 && ZeroFrom(buffer, bitPos);
      hide *;
      var remaining: nat, val: nat := bits, value;
      ghost var start, goal := buffer, Slice(buffer, 0, bitPos) + BigEndian(value, bits);
      StartWrite(buffer, bitPos, val, remaining);
      while remaining > 0
        invariant remaining <= bits && bitPos == old(bitPos) + (bits - remaining)
        invariant |buffer| == (bitPos + 7) / 8
        invariant PartWritten(buffer, bitPos, val, remaining, goal)
        invariant unpaddedLength == old(unpaddedLength)
      {
        val, remaining := WriteNextPiece(val, remaining, goal);
      }
      FinishWrite(start, old(bitPos), BigEndian(value, bits), buffer, bitPos, val);
      unpaddedLength := unpaddedLength + bits;
    }

    /** One turn of the loop above: as many bits as the current byte has room for. */
    method WriteNextPiece(val: nat, remaining: nat, ghost goal: BitString) returns (rest: nat, left: nat)
      requires 0 < remaining <= 64 && |buffer| == (bitPos + 7) / 8 && PartWritten(buffer, bitPos, val, remaining, goal)
      modifies this`buffer, this`bitPos
      ensures left < remaining && bitPos == old(bitPos) + (remaining - left) && |buffer| == (bitPos + 7) / 8
      ensures PartWritten(buffer, bitPos, rest, left, goal)
    {
      hide *;
      var bytePos, bitOffset := bitPos / 8, bitPos % 8;
      var available := 8 - bitOffset;
      var take := if remaining <= available then remaining else available;
      PushZeros(bytePos, val, remaining, goal);
      var shift := remaining - take;
      var piece := if shift < 64 then And(Shr(val, shift), Mask(take)) else 0;
      WriteTurn(buffer, bitPos, val, remaining, goal);
      buffer := buffer[bytePos := Or(buffer[bytePos], Shl(piece, available - take))];
      bitPos := bitPos + take;
      left := remaining - take;
      rest := if left > 0 then And(val, Mask(left)) else 0;
    }

    /** Makes room for the byte at `bytePos`. */
    method PushZeros(bytePos: nat, ghost val: nat, ghost remaining: nat, ghost goal: BitString)
      requires bitPos / 8 == bytePos && |buffer| == (bitPos + 7) / 8
      requires PartWritten(buffer, bitPos, val, remaining, goal)
      modifies this`buffer
      ensures |buffer| == bytePos + 1 && PartWritten(buffer, bitPos, val, remaining, goal)
    {
      while bytePos >= |buffer|
        invariant bytePos <= |buffer| <= bytePos + 1
        invariant PartWritten(buffer, bitPos, val, remaining, goal)
      {
        GrowStep(buffer, bitPos, val, remaining, goal);
        buffer := buffer + [0];
      }
    }

    /** Pads the last byte with zero bits. */
    method Flush(padToByte: bool)
      requires WriterValid()
      modifies this`buffer, this`bitPos, this`unpaddedLength
      ensures Appended(old(bitPos), old(SoFar()),
                       if padToByte then Zeros((8 - old(bitPos) % 8) % 8) else [])
    {
      if padToByte {
        hide Slice, ZeroFrom, BitAt;
        ghost var start, before, padding: BitString := bitPos, SoFar(), [];
        ghost var pad := (8 - start % 8) % 8;
        assert before + padding == before;
        PaddingEnds(start, 0);
        while bitPos % 8 != 0
          invariant Appended(start, before, padding) && |padding| <= pad && padding == Zeros(|padding|)
          invariant bitPos % 8 == 0 <==> |padding| == pad
          decreases pad - |padding|
        {
          WriteBit(false);
          assert before + (padding + [false]) == (before + padding) + [false];
          padding := padding + [false];
          PaddingEnds(start, |padding|);
        }
      }
    }

    /** Gives up the buffer for its bytes. */
    method IntoBytes(padToByte: bool) returns (bytes: Bytes)
      requires WriterValid() && !measureOnly
      modifies this`buffer, this`bitPos, this`unpaddedLength
      ensures bytes == buffer && WriterValid()
      ensures padToByte ==> AllBits(bytes) == old(Written()) + Zeros((8 - old(bitPos) % 8) % 8)
    {
      hide Slice, ZeroFrom, Zeros;
      PaddingEnds(bitPos, (8 - bitPos % 8) % 8);
      Flush(padToByte);
      bytes := buffer;
    }

    method ReadBit() returns (r: Result<bool, IoError>)
      requires ReaderValid()
      modifies this`readPos
      ensures ReaderValid()
      ensures r == if old(Unread()) == [] then Failure(UnexpectedEof) else Success(old(Unread())[0])
      ensures Unread() == if old(Unread()) == [] then [] else old(Unread())[1..]
    {
      var bytePos, bitOffset := readPos / 8, readPos % 8;
      if bytePos >= |buffer| { return Failure(UnexpectedEof); }
      var bit := And(buffer[bytePos], Shl(1, 7 - bitOffset)) != 0;
      TestSingleBit(buffer[bytePos], 7 - bitOffset);
      readPos := readPos + 1;
      return Success(bit);
    }

    /** Succeeds exactly when the bits are there, with the number they spell.
        A failed slow read has used up what was left; a failed fast read has
        used nothing. */
    method ReadBits(bits: nat) returns (r: Result<u64, IoError>)
      requires ReaderValid()
      modifies this`readPos
      ensures ReaderValid()
      ensures r.Success? <==> bits <= 64 && bits <= |old(Unread())|
      ensures r.Success? ==> r.value == FromBits(old(Unread())[..bits]) && Unread() == old(Unread())[bits..]
      ensures r.Failure? ==> r.error == if bits > 64 then InvalidInput else UnexpectedEof
      ensures r.Failure? && bits <= 64 && !(old(readPos) % 8 == 0 && bits % 8 == 0) ==> Unread() == []
      ensures r.Failure? && (bits > 64 || (old(readPos) % 8 == 0 && bits % 8 == 0)) ==> Unread() == old(Unread())
    {
      if bits > 64 { return Failure(InvalidInput); }
      if bits == 0 { return Success(0); }
      if readPos % 8 == 0 && bits % 8 == 0 {
        r := ReadBytesFast(bits / 8);
      } else {
        r := ReadBitsOptimized(bits);
      }
      if r.Success? { FinishRead(buffer, old(readPos), bits, r.value); }
    }

    method ReadBytesFast(bytes: nat) returns (r: Result<u64, IoError>)
      requires ReaderValid() && readPos % 8 == 0 && bytes <= 8
      modifies this`readPos
      ensures r.Success? <==> old(readPos) + 8 * bytes <= 8 * |buffer|
      ensures r.Success? ==>
                readPos == old(readPos) + 8 * bytes && PartRead(buffer, old(readPos), 8 * bytes, 0, r.value)
      ensures r.Failure? ==> r.error == UnexpectedEof && readPos == old(readPos)
    {
      var startByte := readPos / 8;
      if startByte + bytes > |buffer| { return Failure(UnexpectedEof); }
      var value: nat := 0;
      StartZero(buffer, readPos, 8 * bytes);
      {
        hide *;
        for i := 0 to bytes
          invariant readPos == old(readPos) == 8 * startByte && startByte + bytes <= |buffer|
          invariant PartRead(buffer, readPos, 8 * i, 8 * (bytes - i), value)
        {
          FastReadStep(buffer, readPos, startByte, bytes, i, value);
          value := Or(value, Shl(buffer[startByte + i], 8 * (bytes - 1 - i)));
        }
      }
      WordFits(buffer, readPos, 8 * bytes, value);
      readPos := readPos + bytes * 8;
      return Success(value);
    }

    method ReadBitsOptimized(bits: nat) returns (r: Result<u64, IoError>)
      requires ReaderValid() && 0 < bits <= 64
      modifies this`readPos
      ensures r.Success? <==> old(readPos) + bits <= 8 * |buffer|
      ensures r.Success? ==> readPos == old(readPos) + bits && PartRead(buffer, old(readPos), bits, 0, r.value)
      ensures r.Failure? ==> r.error == UnexpectedEof && readPos == 8 * |buffer|
    {
      var remaining: nat, value: nat := bits, 0;
      StartZero(buffer, readPos, bits);
      {
        hide *;
        while remaining > 0
          invariant remaining <= bits && readPos == old(readPos) + (bits - remaining)
          invariant PartRead(buffer, old(readPos), bits - remaining, remaining, value)
        {
          var bytePos, bitOffset := readPos / 8, readPos % 8;
          var available := 8 - bitOffset;
          var take := if remaining <= available then remaining else available;
          if bytePos >= |buffer| { return Failure(UnexpectedEof); }
          SlowReadStep(buffer, old(readPos), bits - remaining, remaining, value);
          var byteShift := available - take;
          var mask := if take >= 8 then 0xFF else Shl(1, take) - 1;
          var bitsValue := And(Shr(buffer[bytePos], byteShift), mask);
          var resultShift := remaining - take;
          if resultShift < 64 {
            value := Or(value, Shl(bitsValue, resultShift));
          }
          readPos := readPos + take;
          remaining := resultShift;
        }
      }
      WordFits(buffer, old(readPos), bits, value);
      return Success(value);
    }
  }

  // ---------- steps of the loops above ----------

  lemma PaddingEnds(pos: nat, k: nat)
    ensures var pad := (8 - pos % 8) % 8; k <= pad ==> ((pos + k) % 8 == 0 <==> k == pad)
  {
  }

  lemma ClearFreeBit(buffer: Bytes, pos: nat)
    requires pos < 8 * |buffer| && !BitAt(buffer, pos)
    ensures Shl(1, 7 - pos % 8) <= 255
    ensures And(buffer[pos / 8], 255 - Shl(1, 7 - pos % 8)) == buffer[pos / 8]
  {
    var b, j := buffer[pos / 8], 7 - pos % 8;
    ByteMask();
    ShlBound(1, j, 1);
    Pow2Mono(j + 1, 8);
    AndBound(b, 255 - Shl(1, j));
    forall i: nat | i < 8
      ensures TestBit(And(b, 255 - Shl(1, j)), i) <==> TestBit(b, i)
    {
      AndBit(b, 255 - Shl(1, j), i);
      ComplementBit(Shl(1, j), 8, i);
      ShlBit(1, j, i);
      if i > j { HighBitsZero(1, 1, i - j); }
    }
    SameBits(And(b, 255 - Shl(1, j)), b, 8);
  }

  lemma PlaceOneBit(buffer: Bytes, pos: nat, bit: bool)
    requires pos < 8 * |buffer| <= pos + 8 && ZeroFrom(buffer, pos)
    ensures
      var single := Shl(1, 7 - pos % 8);
      && single <= 255
      && var word := if bit then Or(buffer[pos / 8], single) else And(buffer[pos / 8], 255 - single);
      && word < 0x100
      && Slice(buffer[pos / 8 := word], 0, pos + 1) == Slice(buffer, 0, pos) + [bit]
      && ZeroFrom(buffer[pos / 8 := word], pos + 1)
  {
    ClearFreeBit(buffer, pos);
    if bit {
      ByteMask();
      PlacedByteFits(buffer[pos / 8], 1, 1, pos % 8);
      PlaceBits(buffer, buffer[pos / 8 := Or(buffer[pos / 8], Shl(1, 7 - pos % 8))], pos, 1, 1);
      assert BigEndian(1, 1) == [true];
    } else {
      assert buffer[pos / 8 := buffer[pos / 8]] == buffer;
      assert Slice(buffer, 0, pos + 1) == Slice(buffer, 0, pos) + [false];
    }
  }

  lemma MaskedValue(value: u64, bits: nat)
    requires bits <= 64
    ensures
      var val := if bits >= 64 then value else And(value, Mask(bits));
      && val < Pow2(bits) && val <= value && BigEndian(val, bits) == BigEndian(value, bits)
  {
    if bits == 64 { WordSizes(); }
    MaskIsLow(value, bits);
    LowIsMod(value, bits);
    LowBound(value, bits);
    OnlyLowBitsCount(value, bits);
    AndBound(value, Mask(bits));
  }

  /** The slow path's mask and shift split a value's next bits off its front. */
  lemma NextPiece(val: nat, take: nat, shift: nat)
    requires val < Pow2(take + shift)
    ensures And(Shr(val, shift), Mask(take)) < Pow2(take)
    ensures And(val, Mask(shift)) < Pow2(shift) && (shift == 0 ==> And(val, Mask(shift)) == 0)
    ensures BigEndian(val, take + shift)
         == BigEndian(And(Shr(val, shift), Mask(take)), take) + BigEndian(And(val, Mask(shift)), shift)
  {
    MaskIsLow(Shr(val, shift), take);
    LowBound(Shr(val, shift), take);
    LowIsMod(Shr(val, shift), take);
    OnlyLowBitsCount(Shr(val, shift), take);
    MaskIsLow(val, shift);
    LowBound(val, shift);
    LowIsMod(val, shift);
    OnlyLowBitsCount(val, shift);
    BigEndianSplit(val, take, shift);
  }

  /** The slow path's loop: what is in the buffer and what is still to be
      written make up `goal`. */
  ghost predicate PartWritten(buffer: Bytes, pos: nat, val: nat, remaining: nat, goal: BitString) {
    && pos <= 8 * |buffer| && ZeroFrom(buffer, pos)
    && val < Pow2(remaining)
    && Slice(buffer, 0, pos) + BigEndian(val, remaining) == goal
  }

  lemma StartWrite(buffer: Bytes, pos: nat, val: nat, remaining: nat)
    requires pos <= 8 * |buffer| && ZeroFrom(buffer, pos) && val < Pow2(remaining)
    ensures PartWritten(buffer, pos, val, remaining, Slice(buffer, 0, pos) + BigEndian(val, remaining))
  {
  }

  lemma GrowStep(buffer: Bytes, pos: nat, val: nat, remaining: nat, goal: BitString)
    requires PartWritten(buffer, pos, val, remaining, goal)
    ensures PartWritten(buffer + [0], pos, val, remaining, goal)
  {
    PushZero(buffer, pos);
  }

  lemma FinishWrite(start: Bytes, from: nat, s: BitString, buffer: Bytes, pos: nat, val: nat)
    requires from <= 8 * |start| && pos == from + |s| && |buffer| == (pos + 7) / 8
    requires PartWritten(buffer, pos, val, 0, Slice(start, 0, from) + s)
    ensures Extended(start, from, buffer, s)
  {
    hide Slice, ZeroFrom, BigEndian;
    assert Slice(buffer, 0, pos) + BigEndian(val, 0) == Slice(buffer, 0, pos);
  }

  lemma SlowWriteStep(buffer: Bytes, pos: nat, val: nat, take: nat, rest: nat, goal: BitString)
    requires PartWritten(buffer, pos, val, take + rest, goal)
    requires |buffer| == pos / 8 + 1 && 0 < take <= 8 - pos % 8 && rest < 64
    ensures
      var piece := if rest < 64 then And(Shr(val, rest), Mask(take)) else 0;
      var word := Or(buffer[pos / 8], Shl(piece, 8 - pos % 8 - take));
      && word < 0x100
      && PartWritten(buffer[pos / 8 := word], pos + take, if rest > 0 then And(val, Mask(rest)) else 0, rest, goal)
    ensures |buffer| == (pos + take + 7) / 8
  {
    hide Or, And, Shr, Shl, Mask, Pow2, TestBit, BigEndian, Slice, ZeroFrom;
    var piece := And(Shr(val, rest), Mask(take));
    NextPiece(val, take, rest);
    PlacedByteFits(buffer[pos / 8], piece, take, pos % 8);
    var after := buffer[pos / 8 := Or(buffer[pos / 8], Shl(piece, 8 - pos % 8 - take))];
    PlaceBits(buffer, after, pos, take, piece);
    assert (Slice(buffer, 0, pos) + BigEndian(piece, take)) + BigEndian(And(val, Mask(rest)), rest)
        == Slice(buffer, 0, pos) + (BigEndian(piece, take) + BigEndian(And(val, Mask(rest)), rest));
  }

  /** The same turn, in the terms of the loop. */
  lemma WriteTurn(buffer: Bytes, pos: nat, val: nat, remaining: nat, goal: BitString)
    requires PartWritten(buffer, pos, val, remaining, goal) && |buffer| == pos / 8 + 1 && 0 < remaining <= 64
    ensures
      var available := 8 - pos % 8;
      var take := if remaining <= available then remaining else available;
      var shift := remaining - take;
      && 0 < take <= remaining && take <= available
      && var piece := if shift < 64 then And(Shr(val, shift), Mask(take)) else 0;
      var word := Or(buffer[pos / 8], Shl(piece, available - take));
      && word < 0x100 && |buffer| == (pos + take + 7) / 8
      && PartWritten(buffer[pos / 8 := word], pos + take, if shift > 0 then And(val, Mask(shift)) else 0, shift, goal)
  {
    hide *;
    var available := 8 - pos % 8;
    var take := if remaining <= available then remaining else available;
    SlowWriteStep(buffer, pos, val, take, remaining - take, goal);
  }

  /** The fast path's next byte continues the value's bits. */
  lemma NextByte(value: nat, bytes: nat, i: nat)
    requires i < bytes
    ensures BigEndian(Shr(value, 8 * (bytes - 1 - i)), 8 * (i + 1))
         == BigEndian(Shr(value, 8 * (bytes - i)), 8 * i)
            + BigEndian(And(Shr(value, 8 * (bytes - 1 - i)), 0xFF), 8)
  {
    var rest := 8 * (bytes - 1 - i);
    var shifted := Shr(value, rest);
    ByteMask();
    MaskIsLow(shifted, 8);
    LowIsMod(shifted, 8);
    OnlyLowBitsCount(shifted, 8);
    BigEndianSplit(shifted, 8 * i, 8);
    ShrShr(value, rest, 8);
  }

  lemma FastWriteStep(start: Bytes, buffer: Bytes, value: nat, bytes: nat, i: nat)
    requires i < bytes
    requires AllBits(buffer) == AllBits(start) + BigEndian(Shr(value, 8 * (bytes - i)), 8 * i)
    ensures
      var byte := And(Shr(value, 8 * (bytes - 1 - i)), 0xFF);
      && byte < 0x100
      && AllBits(buffer + [byte]) == AllBits(start) + BigEndian(Shr(value, 8 * (bytes - (i + 1))), 8 * (i + 1))
  {
    var byte := And(Shr(value, 8 * (bytes - 1 - i)), 0xFF);
    AndBound(Shr(value, 8 * (bytes - 1 - i)), 0xFF);
    NextByte(value, bytes, i);
    PushByte(buffer, byte);
    assert (AllBits(start) + BigEndian(Shr(value, 8 * (bytes - i)), 8 * i)) + BigEndian(byte, 8)
        == AllBits(start) + (BigEndian(Shr(value, 8 * (bytes - i)), 8 * i) + BigEndian(byte, 8));
  }

  lemma {:induction false} ShrShr(x: nat, a: nat, b: nat)
    ensures Shr(Shr(x, a), b) == Shr(x, a + b)
  {
    if a > 0 { ShrShr(x / 2, a - 1, b); }
  }

  lemma FastReadStep(buffer: Bytes, start: nat, startByte: nat, bytes: nat, i: nat, value: nat)
    requires start == 8 * startByte && i < bytes && startByte + bytes <= |buffer|
    requires PartRead(buffer, start, 8 * i, 8 * (bytes - i), value)
    ensures PartRead(buffer, start, 8 * (i + 1), 8 * (bytes - (i + 1)),
                     Or(value, Shl(buffer[startByte + i], 8 * (bytes - 1 - i))))
  {
    var b := buffer[startByte + i];
    ByteMask();
    MaskIsLow(b, 8);
    LowFix(b, 8);
    assert (start + 8 * i) / 8 == startByte + i && (start + 8 * i) % 8 == 0;
    assert And(Shr(b, 0), Mask(8)) == b;
    TakeBits(buffer, start, 8 * i, 8, 8 * (bytes - 1 - i), value);
  }

  lemma StartZero(buffer: Bytes, start: nat, n: nat)
    requires start <= 8 * |buffer|
    ensures PartRead(buffer, start, 0, n, 0)
  {
    forall i: nat | i < n
      ensures !BigEndian(0, n)[i]
    {
      ZeroBits(n - 1 - i);
    }
  }

  lemma ReadMask(take: nat)
    requires take <= 8
    ensures (if take >= 8 then 0xFF else Shl(1, take) - 1) == Mask(take)
  {
    ShlIsTimes(1, take);
    ByteMask();
  }

  lemma SlowReadStep(buffer: Bytes, start: nat, done: nat, remaining: nat, value: nat)
    requires 0 < remaining <= 64 && start + done < 8 * |buffer|
    requires PartRead(buffer, start, done, remaining, value)
    ensures
      var pos := start + done;
      var available := 8 - pos % 8;
      var take := if remaining <= available then remaining else available;
      var mask := if take >= 8 then 0xFF else Shl(1, take) - 1;
      && mask >= 0
      && var piece := And(Shr(buffer[pos / 8], available - take), mask);
      PartRead(buffer, start, done + take, remaining - take, Or(value, Shl(piece, remaining - take)))
  {
    hide *;
    var pos := start + done;
    var take := if remaining <= 8 - pos % 8 then remaining else 8 - pos % 8;
    ReadMask(take);
    TakeBits(buffer, start, done, take, remaining - take, value);
  }

  lemma WordFits(buffer: Bytes, start: nat, n: nat, value: nat)
    requires n <= 64 && PartRead(buffer, start, n, 0, value)
    ensures value < 0x1_0000_0000_0000_0000
  {
    Pow2Mono(n, 64);
    WordSizes();
  }

  lemma FinishRead(buffer: Bytes, start: nat, n: nat, value: nat)
    requires PartRead(buffer, start, n, 0, value)
    ensures value == FromBits(AllBits(buffer)[start..][..n])
  {
    assert AllBits(buffer)[start..][..n] == BigEndian(value, n);
    ValueRoundTrip(value, n);
    LowFix(value, n);
    LowIsMod(value, n);
  }

  /** Whole bytes of any bits. */
  function Packed(s: BitString): (bytes: Bytes)
    requires |s| % 8 == 0
    ensures 8 * |bytes| == |s|
  {
    if s == [] then []
    else
      ByteFits(s[|s| - 8..]);
      Packed(s[..|s| - 8]) + [FromBits(s[|s| - 8..])]
  }

  lemma ByteFits(s: BitString)
    requires |s| == 8
    ensures FromBits(s) < 0x100
  {
    ByteMask();
    FromBitsBound(s);
  }

  lemma {:induction false} PackedBits(s: BitString)
    requires |s| % 8 == 0
    ensures AllBits(Packed(s)) == s
  {
    if s == [] {
      assert Packed(s) == [];
    } else {
      var front, last := s[..|s| - 8], s[|s| - 8..];
      PackedBits(front);
      ByteFits(last);
      BitsRoundTrip(last);
      PushByte(Packed(front), FromBits(last));
      hide AllBits, FromBits, BigEndian;
      assert front + last == s;
    }
  }

  // ---------- any list of writes, read back ----------

  datatype Write = Write(value: u64, bits: nat)

  /** The bits that a list of `WriteBits` calls appends. */
  function Spelled(writes: seq<Write>): BitString {
    if writes == [] then []
    else Spelled(writes[..|writes| - 1]) + BigEndian(writes[|writes| - 1].value, writes[|writes| - 1].bits)
  }

  datatype Numbers = Numbers(values: seq<nat>, rest: BitString)

  /** What a list of `ReadBits` calls takes, or nothing if the bits run out. */
  function Taken(s: BitString, writes: seq<Write>): Option<Numbers> {
    if writes == [] then Some(Numbers([], s))
    else
      var n := writes[|writes| - 1].bits;
      match Taken(s, writes[..|writes| - 1])
      case None => None
      case Some(t) =>
        if n > |t.rest| then None else Some(Numbers(t.values + [FromBits(t.rest[..n])], t.rest[n..]))
  }

  function Masked(writes: seq<Write>): seq<nat> {
    seq(|writes|, i requires 0 <= i < |writes| => writes[i].value % Pow2(writes[i].bits))
  }

  /** Any list of writes, then reads of the same widths: the masked values come
      back in order, whatever the alignment and whatever follows. */
  lemma {:induction false} WritesReadBack(writes: seq<Write>, suffix: BitString)
    ensures Taken(Spelled(writes) + suffix, writes) == Some(Numbers(Masked(writes), suffix))
  {
    if writes == [] {
      assert [] + suffix == suffix;
    } else {
      var front, last := writes[..|writes| - 1], writes[|writes| - 1];
      var piece := BigEndian(last.value, last.bits);
      WritesReadBack(front, piece + suffix);
      ValueRoundTrip(last.value, last.bits);
      hide FromBits, BigEndian, Pow2;
      assert Spelled(front) + piece + suffix == Spelled(front) + (piece + suffix);
      assert (piece + suffix)[..last.bits] == piece && (piece + suffix)[last.bits..] == suffix;
      assert Masked(front) + [last.value % Pow2(last.bits)] == Masked(writes);
    }
  }
}
