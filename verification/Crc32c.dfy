/** The CRC-32C checksum (section 12.1 of RFC 3720), the frames it protects, and
    the errors it is sure to catch. */
module Crc32c {
  import opened Wrappers

  const CRC32C_POLYNOMIAL: bv32 := 0x82F63B78

  // ---------- the register ----------

  function Xor(a: bv32, b: bv32): bv32 { a ^ b }

  function Invert(a: bv32): bv32 { !a }

  function Half(a: bv32): bv32 { a >> 1 }

  predicate Odd(a: bv32) { a & 1 != 0 }

  /** One step of the shift register. */
  function Shift(crc: bv32): bv32 {
    if Odd(crc) then Xor(Half(crc), CRC32C_POLYNOMIAL) else Half(crc)
  }

  function ShiftBy(crc: bv32, n: nat): bv32 { if n == 0 then crc else Shift(ShiftBy(crc, n - 1)) }

  /** Takes one byte into the register. */
  function Absorb(crc: bv32, byte: bv8): bv32 { ShiftBy(Xor(crc, byte as bv32), 8) }

  function AbsorbAll(crc: bv32, data: seq<bv8>): bv32 {
    if data == [] then crc else Absorb(AbsorbAll(crc, data[..|data| - 1]), data[|data| - 1])
  }

  function Checksum(data: seq<bv8>): bv32 { Invert(AbsorbAll(0xFFFF_FFFF, data)) }

  lemma ShiftByNext(crc: bv32, k: nat)
    ensures ShiftBy(crc, 0) == crc && ShiftBy(crc, k + 1) == Shift(ShiftBy(crc, k))
  {
  }

  lemma ShiftCases(crc: bv32)
    ensures Shift(crc) == if crc & 1 != 0 then (crc >> 1) ^ CRC32C_POLYNOMIAL else crc >> 1
  {
  }

  lemma AbsorbNext(data: seq<bv8>, i: nat)
    requires i < |data|
    ensures AbsorbAll(0xFFFF_FFFF, data[..i + 1]) == ShiftBy(Xor(AbsorbAll(0xFFFF_FFFF, data[..i]), data[i] as bv32), 8)
  {
    hide ShiftBy, Xor;
    assert data[..i + 1][..i] == data[..i];
  }

  /** The inner loop: eight steps of the register. */
  method ShiftByte(start: bv32) returns (crc: bv32)
    ensures crc == ShiftBy(start, 8)
  {
    crc := start;
    ShiftByNext(start, 0);
    for k := 0 to 8
      invariant crc == ShiftBy(start, k)
    {
      ShiftByNext(start, k);
      ShiftCases(crc);
      hide *;
      if crc & 1 != 0 {
        crc := (crc >> 1) ^ CRC32C_POLYNOMIAL;
      } else {
        crc := crc >> 1;
      }
    }
  }

  method ComputeCrc32c(data: seq<bv8>) returns (crc: bv32)
    ensures crc == Checksum(data)
  {
    hide Xor, Shift, ShiftBy, Absorb;
    crc := 0xFFFF_FFFF;
    assert AbsorbAll(0xFFFF_FFFF, data[..0]) == 0xFFFF_FFFF;
    for i := 0 to |data|
      invariant crc == AbsorbAll(0xFFFF_FFFF, data[..i])
    {
      AbsorbNext(data, i);
      crc := Xor(crc, data[i] as bv32);
      crc := ShiftByte(crc);
    }
    assert data[..|data|] == data;
    crc := !crc;
  }

  // ---------- frames ----------

  function LittleEndian(w: bv32): seq<bv8> {
    [(w & 0xFF) as bv8, ((w >> 8) & 0xFF) as bv8, ((w >> 16) & 0xFF) as bv8, (w >> 24) as bv8]
  }

  function FromLittleEndian(b0: bv8, b1: bv8, b2: bv8, b3: bv8): bv32 {
    (b0 as bv32) | ((b1 as bv32) << 8) | ((b2 as bv32) << 16) | ((b3 as bv32) << 24)
  }

  method AppendCrc32(data: seq<bv8>) returns (frame: seq<bv8>)
    ensures frame == data + LittleEndian(Checksum(data))
  {
    var crc := ComputeCrc32c(data);
    frame := data + LittleEndian(crc);
  }

  function ValidateAndStrip(frame: seq<bv8>): Option<seq<bv8>> {
    if |frame| < 4 then None
    else
      var n := |frame| - 4;
      if Checksum(frame[..n]) == FromLittleEndian(frame[n], frame[n + 1], frame[n + 2], frame[n + 3])
      then Some(frame[..n])
      else None
  }

  lemma LittleEndianRoundTrip(w: bv32)
    ensures var b := LittleEndian(w); FromLittleEndian(b[0], b[1], b[2], b[3]) == w
  {
  }

  /** What was appended to is what comes out. */
  lemma FrameRoundTrip(data: seq<bv8>)
    ensures ValidateAndStrip(data + LittleEndian(Checksum(data))) == Some(data)
  {
    var frame := data + LittleEndian(Checksum(data));
    LittleEndianRoundTrip(Checksum(data));
    assert frame[..|frame| - 4] == data;
  }

  // ---------- the algebra of the register ----------

  lemma XorParts(a: bv32, b: bv32)
    ensures Half(Xor(a, b)) == Xor(Half(a), Half(b))
    ensures Odd(Xor(a, b)) <==> Odd(a) != Odd(b)
  {
  }

  lemma XorCommutes(a: bv32, b: bv32)
    ensures Xor(a, b) == Xor(b, a)
  {
  }

  lemma XorAssociates(a: bv32, b: bv32, c: bv32)
    ensures Xor(Xor(a, b), c) == Xor(a, Xor(b, c))
  {
  }

  lemma XorCancels(a: bv32, b: bv32)
    ensures Xor(Xor(a, b), b) == a
  {
  }

  /** The register is linear over exclusive-or. */
  lemma ShiftIsLinear(a: bv32, b: bv32)
    ensures Shift(Xor(a, b)) == Xor(Shift(a), Shift(b))
  {
    var x, y, p := Half(a), Half(b), CRC32C_POLYNOMIAL;
    XorParts(a, b);
    XorAssociates(x, y, p);
    XorAssociates(x, p, y);
    XorAssociates(x, p, Xor(y, p));
    XorAssociates(p, y, p);
    XorCommutes(p, y);
    XorCancels(y, p);
    hide Xor, Half, Odd;
  }

  lemma ShiftIsInjective(a: bv32, b: bv32)
    requires Shift(a) == Shift(b)
    ensures a == b
  {
  }

  lemma {:induction false} ShiftByIsInjective(a: bv32, b: bv32, n: nat)
    requires ShiftBy(a, n) == ShiftBy(b, n)
    ensures a == b
  {
    if n > 0 {
      ShiftIsInjective(ShiftBy(a, n - 1), ShiftBy(b, n - 1));
      ShiftByIsInjective(a, b, n - 1);
    }
  }

  lemma {:induction false} ShiftByIsLinear(a: bv32, b: bv32, n: nat)
    ensures ShiftBy(Xor(a, b), n) == Xor(ShiftBy(a, n), ShiftBy(b, n))
  {
    hide Xor, Shift;
    if n > 0 {
      ShiftByIsLinear(a, b, n - 1);
      ShiftIsLinear(ShiftBy(a, n - 1), ShiftBy(b, n - 1));
    }
  }

  // ---------- the register, bit by bit ----------

  function BitWord(b: bool): bv32 { if b then 1 else 0 }

  /** Takes bits into the register, the low bit of each byte first. */
  function AbsorbBits(crc: bv32, bits: seq<bool>): bv32
    decreases |bits|
  {
    if bits == [] then crc else AbsorbBits(Shift(Xor(crc, BitWord(bits[0]))), bits[1..])
  }

  /** The low `n` bits of a word, the lowest first. */
  function BitsOf(w: bv32, n: nat): (bits: seq<bool>)
    ensures |bits| == n
    decreases n
  {
    if n == 0 then [] else [Odd(w)] + BitsOf(Half(w), n - 1)
  }

  function ByteBits(b: bv8): (bits: seq<bool>)
    ensures |bits| == 8
  {
    BitsOf(b as bv32, 8)
  }

  function DataBits(data: seq<bv8>): (bits: seq<bool>)
    ensures |bits| == 8 * |data|
  {
    if data == [] then [] else DataBits(data[..|data| - 1]) + ByteBits(data[|data| - 1])
  }

  lemma {:induction false} AbsorbBitsSplit(crc: bv32, s: seq<bool>, t: seq<bool>)
    ensures AbsorbBits(crc, s + t) == AbsorbBits(AbsorbBits(crc, s), t)
    decreases |s|
  {
    hide Shift, Xor, BitWord;
    if s == [] {
      assert s + t == t;
    } else {
      assert (s + t)[1..] == s[1..] + t;
      AbsorbBitsSplit(Shift(Xor(crc, BitWord(s[0]))), s[1..], t);
    }
  }

  lemma {:induction false} AbsorbBitsIsInjective(a: bv32, b: bv32, bits: seq<bool>)
    requires AbsorbBits(a, bits) == AbsorbBits(b, bits)
    ensures a == b
    decreases |bits|
  {
    if bits != [] {
      var w := BitWord(bits[0]);
      AbsorbBitsIsInjective(Shift(Xor(a, w)), Shift(Xor(b, w)), bits[1..]);
      hide Shift;
      ShiftIsInjective(Xor(a, w), Xor(b, w));
      XorCancels(a, w);
      XorCancels(b, w);
    }
  }

  // ---------- bursts ----------

  /** `x` has no bit at or above the n-th. */
  predicate Fits(x: bv32, n: nat) { if n == 0 then x == 0 else Fits(Half(x), n - 1) }

  lemma {:induction false} FitsMore(x: bv32, n: nat, m: nat)
    requires Fits(x, n) && n <= m
    ensures Fits(x, m)
  {
    if m > 0 {
      if n > 0 { FitsMore(Half(x), n - 1, m - 1); }
      else { FitsMore(Half(x), 0, m - 1); }
    }
  }

  predicate AtMost(a: bv32, b: bv32) { a <= b }

  lemma HalfIsMonotone(a: bv32, b: bv32)
    ensures AtMost(a, b) ==> AtMost(Half(a), Half(b))
    ensures AtMost(a, 0) ==> a == 0
  {
  }

  lemma {:induction false} FitsLess(x: bv32, y: bv32, n: nat)
    requires AtMost(y, x) && Fits(x, n)
    ensures Fits(y, n)
    decreases n
  {
    hide Half, AtMost;
    HalfIsMonotone(y, x);
    if n > 0 { FitsLess(Half(x), Half(y), n - 1); }
  }

  /** The top bit, moved down k places. */
  function TopBit(k: nat): bv32 { if k == 0 then 0x8000_0000 else Half(TopBit(k - 1)) }

  lemma {:induction false} TopBitFits(k: nat, n: nat)
    requires Fits(TopBit(k), n)
    ensures TopBit(k + n) == 0
    decreases n
  {
    if n > 0 { TopBitFits(k + 1, n - 1); }
  }

  lemma TopBitReachesOne()
    ensures TopBit(31) == 1
  {
    assert TopBit(2) == 0x20000000 && TopBit(4) == 0x8000000 && TopBit(6) == 0x2000000;
    assert TopBit(8) == 0x800000 && TopBit(10) == 0x200000 && TopBit(12) == 0x80000;
    assert TopBit(14) == 0x20000 && TopBit(16) == 0x8000 && TopBit(18) == 0x2000;
    assert TopBit(20) == 0x800 && TopBit(22) == 0x200 && TopBit(24) == 0x80;
    assert TopBit(26) == 0x20 && TopBit(28) == 0x8 && TopBit(30) == 0x2;
  }

  lemma TopBitClear(x: bv32, n: nat)
    requires Fits(x, n) && n <= 31
    ensures x < 0x8000_0000
  {
    FitsMore(x, n, 31);
    if AtMost(0x8000_0000, x) {
      FitsLess(x, TopBit(0), 31);
      TopBitFits(0, 31);
      TopBitReachesOne();
    }
  }

  /** A register that a shift leaves without its top bit was even. */
  lemma ShiftOfOddHasTopBit(y: bv32)
    requires Shift(y) < 0x8000_0000
    ensures Shift(y) == Half(y)
  {
  }

  lemma LowBitDropsOut(x: bv32, b: bool)
    ensures Half(Xor(x, BitWord(b))) == Half(x)
  {
  }

  /** If at most 32 more bits, the same or different, bring two registers
      together, they differ only as far up as those bits reach. */
  lemma {:induction false} Meeting(a: bv32, b: bv32, u: seq<bool>, v: seq<bool>)
    requires |u| == |v| <= 32 && AbsorbBits(a, u) == AbsorbBits(b, v)
    ensures Fits(Xor(a, b), |u|)
    decreases |u|
  {
    if u == [] {
      assert Xor(a, b) == 0;
    } else {
      var x, y := Xor(a, BitWord(u[0])), Xor(b, BitWord(v[0]));
      Meeting(Shift(x), Shift(y), u[1..], v[1..]);
      ShiftIsLinear(x, y);
      TopBitClear(Shift(Xor(x, y)), |u| - 1);
      ShiftOfOddHasTopBit(Xor(x, y));
      XorParts(x, y);
      XorParts(a, b);
      LowBitDropsOut(a, u[0]);
      LowBitDropsOut(b, v[0]);
      hide Shift, Xor, Half, BitWord;
    }
  }

  lemma FirstBitIsSeen(crc: bv32, u: seq<bool>, v: seq<bool>)
    requires 0 < |u| == |v| <= 32 && AbsorbBits(crc, u) == AbsorbBits(crc, v)
    ensures u[0] == v[0]
  {
    var x, y := Xor(crc, BitWord(u[0])), Xor(crc, BitWord(v[0]));
    Meeting(Shift(x), Shift(y), u[1..], v[1..]);
    ShiftIsLinear(x, y);
    TopBitClear(Shift(Xor(x, y)), |u| - 1);
    OneBitApart(crc, u[0], v[0]);
    hide Xor, Shift, BitWord, AbsorbBits;
  }

  lemma OneBitApart(crc: bv32, b: bool, c: bool)
    ensures b != c ==> Shift(Xor(Xor(crc, BitWord(b)), Xor(crc, BitWord(c)))) >= 0x8000_0000
  {
    if b != c {
      assert Xor(Xor(crc, BitWord(b)), Xor(crc, BitWord(c))) == 1;
      assert Shift(1) == CRC32C_POLYNOMIAL;
    }
  }

  /** From one register, two different strings of at most 32 bits never lead to
      the same register. */
  lemma {:induction false} BurstsAreSeen(crc: bv32, u: seq<bool>, v: seq<bool>)
    requires |u| == |v| <= 32 && AbsorbBits(crc, u) == AbsorbBits(crc, v)
    ensures u == v
    decreases |u|
  {
    hide Xor, Shift, BitWord;
    if u != [] {
      FirstBitIsSeen(crc, u, v);
      BurstsAreSeen(Shift(Xor(crc, BitWord(u[0]))), u[1..], v[1..]);
      assert u == [u[0]] + u[1..] && v == [v[0]] + v[1..];
    }
  }

  // ---------- frames, bit by bit ----------

  function HalfBy(x: bv32, k: nat): bv32
    decreases k
  {
    if k == 0 then x else HalfBy(Half(x), k - 1)
  }

  /** One step with a whole word mixed in is one step with its low bit, and the
      rest of the word moved down. */
  lemma ShiftPeel(crc: bv32, w: bv32)
    ensures Shift(Xor(crc, w)) == Xor(Shift(Xor(crc, BitWord(Odd(w)))), Half(w))
  {
    var low := BitWord(Odd(w));
    var high := Xor(w, low);
    assert Shift(high) == Half(w);
    XorCommutes(low, high);
    XorCancels(w, low);
    XorAssociates(crc, low, high);
    ShiftIsLinear(Xor(crc, low), high);
    hide Xor, Shift, Half, Odd, BitWord;
  }

  lemma {:induction false} ShiftByFront(x: bv32, n: nat)
    requires n > 0
    ensures ShiftBy(x, n) == ShiftBy(Shift(x), n - 1)
  {
    hide Shift;
    if n > 1 { ShiftByFront(x, n - 1); }
  }

  /** Bit by bit or all at once, a word changes the register alike. */
  lemma {:induction false} AbsorbWord(crc: bv32, w: bv32, n: nat)
    ensures ShiftBy(Xor(crc, w), n) == Xor(AbsorbBits(crc, BitsOf(w, n)), HalfBy(w, n))
    decreases n
  {
    hide Xor, Shift, Half, Odd, BitWord;
    if n > 0 {
      ShiftByFront(Xor(crc, w), n);
      ShiftPeel(crc, w);
      AbsorbWord(Shift(Xor(crc, BitWord(Odd(w)))), Half(w), n - 1);
      assert BitsOf(w, n)[1..] == BitsOf(Half(w), n - 1);
    }
  }

  lemma EightHalves(x: bv32)
    ensures Half(Half(Half(Half(Half(Half(Half(Half(x)))))))) == x >> 8
  {
  }

  lemma HalfByEight(x: bv32)
    ensures HalfBy(x, 8) == x >> 8
  {
    EightHalves(x);
    hide Half;
    var x4 := Half(Half(Half(Half(x))));
    assert HalfBy(x, 8) == HalfBy(Half(Half(x)), 6) == HalfBy(x4, 4);
    assert HalfBy(x4, 4) == HalfBy(Half(Half(x4)), 2);
    assert HalfBy(Half(Half(x4)), 2) == HalfBy(Half(Half(Half(x4))), 1);
  }

  predicate SameOdd(w: bv32, v: bv32) { Odd(w) == Odd(v) && Odd(Half(w)) == Odd(Half(v)) }

  predicate SameLowByte(w: bv32, v: bv32) {
    var w2, v2 := Half(Half(w)), Half(Half(v));
    var w4, v4 := Half(Half(w2)), Half(Half(v2));
    SameOdd(w, v) && SameOdd(w2, v2) && SameOdd(w4, v4) && SameOdd(Half(Half(w4)), Half(Half(v4)))
  }

  lemma LowByteParts(w: bv32)
    ensures var v := w & 0xFF;
      var w2, v2 := Half(Half(w)), Half(Half(v));
      var w4, v4 := Half(Half(w2)), Half(Half(v2));
      SameOdd(w, v) && SameOdd(w2, v2) && SameOdd(w4, v4) && SameOdd(Half(Half(w4)), Half(Half(v4)))
  {
  }

  lemma LowByteValue(w: bv32)
    ensures ((w & 0xFF) as bv8) as bv32 == w & 0xFF
  {
  }

  lemma {:induction false} TwoMoreBits(w: bv32, v: bv32, n: nat)
    requires SameOdd(w, v) && BitsOf(Half(Half(w)), n) == BitsOf(Half(Half(v)), n)
    ensures BitsOf(w, n + 2) == BitsOf(v, n + 2)
  {
    hide Odd, Half;
    assert BitsOf(Half(w), n + 1) == BitsOf(Half(v), n + 1);
  }

  lemma SameLowBits(w: bv32, v: bv32)
    requires SameLowByte(w, v)
    ensures BitsOf(w, 8) == BitsOf(v, 8)
  {
    var w2, v2 := Half(Half(w)), Half(Half(v));
    var w4, v4 := Half(Half(w2)), Half(Half(v2));
    hide Odd, Half, SameOdd;
    TwoMoreBits(Half(Half(w4)), Half(Half(v4)), 0);
    TwoMoreBits(w4, v4, 2);
    TwoMoreBits(w2, v2, 4);
    TwoMoreBits(w, v, 6);
  }

  /** The low eight bits are those of the low byte. */
  lemma LowByteBits(w: bv32)
    ensures BitsOf(w, 8) == ByteBits((w & 0xFF) as bv8)
  {
    LowByteParts(w);
    LowByteValue(w);
    hide SameOdd, Half, Odd, BitsOf;
    SameLowBits(w, w & 0xFF);
  }

  lemma ByteHasNoMore(b: bv8)
    ensures HalfBy(b as bv32, 8) == 0
  {
    HalfByEight(b as bv32);
    assert (b as bv32) >> 8 == 0;
  }

  lemma XorZero(x: bv32)
    ensures Xor(x, 0) == x && Xor(0, x) == x
  {
  }

  /** Taking in a byte is taking in its bits. */
  lemma AbsorbIsBitwise(crc: bv32, b: bv8)
    ensures Absorb(crc, b) == AbsorbBits(crc, ByteBits(b))
  {
    AbsorbWord(crc, b as bv32, 8);
    ByteHasNoMore(b);
    XorZero(AbsorbBits(crc, ByteBits(b)));
    hide AbsorbBits, BitsOf, HalfBy, ShiftBy, Xor;
  }

  lemma {:induction false} AbsorbAllIsBitwise(crc: bv32, data: seq<bv8>)
    ensures AbsorbAll(crc, data) == AbsorbBits(crc, DataBits(data))
  {
    hide Absorb, ByteBits, Shift, Xor;
    if data != [] {
      var front, last := data[..|data| - 1], data[|data| - 1];
      AbsorbAllIsBitwise(crc, front);
      AbsorbIsBitwise(AbsorbAll(crc, front), last);
      AbsorbBitsSplit(crc, DataBits(front), ByteBits(last));
    }
  }

  lemma ByteBitsDetermine(a: bv8, b: bv8)
    requires ByteBits(a) == ByteBits(b)
    ensures a == b
  {
    AbsorbIsBitwise(0, a);
    AbsorbIsBitwise(0, b);
    XorZero(a as bv32);
    XorZero(b as bv32);
    hide Xor, ShiftBy, AbsorbBits, BitsOf;
    ShiftByIsInjective(a as bv32, b as bv32, 8);
    assert a as bv32 == b as bv32;
  }

  lemma {:induction false} DataBitsDetermine(x: seq<bv8>, y: seq<bv8>)
    requires |x| == |y| && DataBits(x) == DataBits(y)
    ensures x == y
  {
    if x != [] {
      hide ByteBits;
      var n := |x| - 1;
      var p, q := DataBits(x[..n]), DataBits(y[..n]);
      assert DataBits(x)[..8 * n] == p && DataBits(y)[..8 * n] == q;
      assert DataBits(x)[8 * n..] == ByteBits(x[n]) && DataBits(y)[8 * n..] == ByteBits(y[n]);
      DataBitsDetermine(x[..n], y[..n]);
      ByteBitsDetermine(x[n], y[n]);
      assert x == x[..n] + [x[n]] && y == y[..n] + [y[n]];
    }
  }

  // ---------- accepted frames ----------

  const RESIDUE: bv32 := 0xB798_B438

  lemma ResidueValue()
    ensures ShiftBy(0xFFFF_FFFF, 32) == RESIDUE
  {
    assert ShiftBy(0xFFFF_FFFF, 2) == 0xfc72d93b && ShiftBy(0xFFFF_FFFF, 4) == 0xfc91908a
      && ShiftBy(0xFFFF_FFFF, 6) == 0xbdd25f5a;
    assert ShiftBy(0xFFFF_FFFF, 8) == 0xad82acae && ShiftBy(0xFFFF_FFFF, 10) == 0xa9969053
      && ShiftBy(0xFFFF_FFFF, 12) == 0xe9e882d0;
    assert ShiftBy(0xFFFF_FFFF, 14) == 0x3a7a20b4 && ShiftBy(0xFFFF_FFFF, 16) == 0xe9e882d
      && ShiftBy(0xFFFF_FFFF, 18) == 0x42dcbfb7;
    assert ShiftBy(0xFFFF_FFFF, 20) == 0xd33a0929 && ShiftBy(0xFFFF_FFFF, 22) == 0x75b59ff6
      && ShiftBy(0xFFFF_FFFF, 24) == 0x9f9b5c85;
    assert ShiftBy(0xFFFF_FFFF, 26) == 0x669dca9d && ShiftBy(0xFFFF_FFFF, 28) == 0x58dc6f1b
      && ShiftBy(0xFFFF_FFFF, 30) == 0xd5ba3d02;
    assert ShiftBy(0xFFFF_FFFF, 32) == 0xb798b438;
  }

  lemma {:induction false} ShiftBySplit(x: bv32, m: nat, n: nat)
    ensures ShiftBy(x, m + n) == ShiftBy(ShiftBy(x, m), n)
  {
    hide Shift;
    if n > 0 { ShiftBySplit(x, m, n - 1); }
  }

  function LowByte(w: bv32): bv8 { (w & 0xFF) as bv8 }

  /** One byte of a word taken in leaves the word to be mixed in a byte lower. */
  lemma AbsorbLowByte(crc: bv32, w: bv32)
    ensures Xor(Absorb(crc, LowByte(w)), w >> 8) == ShiftBy(Xor(crc, w), 8)
  {
    AbsorbWord(crc, w, 8);
    LowByteBits(w);
    HalfByEight(w);
    AbsorbIsBitwise(crc, LowByte(w));
  }

  lemma BytesOfWord(w: bv32)
    ensures var b := LittleEndian(w);
      && b == [LowByte(w), LowByte(w >> 8), LowByte((w >> 8) >> 8), LowByte(((w >> 8) >> 8) >> 8)]
      && (((w >> 8) >> 8) >> 8) >> 8 == 0
  {
  }

  /** Four bytes taken in, low byte first, are one word mixed in. */
  lemma AbsorbFour(crc: bv32, w: bv32)
    ensures var b := LittleEndian(w);
            Absorb(Absorb(Absorb(Absorb(crc, b[0]), b[1]), b[2]), b[3]) == ShiftBy(Xor(crc, w), 32)
  {
    BytesOfWord(w);
    var w1 := w >> 8;
    var w2 := w1 >> 8;
    var w3 := w2 >> 8;
    var w4 := w3 >> 8;
    var r1 := Absorb(crc, LowByte(w));
    var r2 := Absorb(r1, LowByte(w1));
    var r3 := Absorb(r2, LowByte(w2));
    var r4 := Absorb(r3, LowByte(w3));
    AbsorbLowByte(crc, w);
    AbsorbLowByte(r1, w1);
    AbsorbLowByte(r2, w2);
    AbsorbLowByte(r3, w3);
    XorZero(r4);
    hide Xor, Absorb, LowByte, LittleEndian, ShiftBy;
    var x := Xor(crc, w);
    ShiftBySplit(x, 8, 8);
    ShiftBySplit(x, 16, 8);
    ShiftBySplit(x, 24, 8);
  }

  lemma NotIsXor(r: bv32)
    ensures Invert(r) == Xor(r, 0xFFFF_FFFF)
  {
  }

  lemma Complement(r: bv32, w: bv32)
    ensures Invert(r) == w <==> Xor(r, w) == 0xFFFF_FFFF
  {
    NotIsXor(r);
    XorCommutes(r, 0xFFFF_FFFF);
    XorCommutes(r, w);
    XorCancels(0xFFFF_FFFF, r);
    XorCancels(w, r);
    hide Xor, Invert;
  }

  lemma AbsorbAllNext(crc: bv32, data: seq<bv8>, i: nat)
    requires i < |data|
    ensures AbsorbAll(crc, data[..i + 1]) == Absorb(AbsorbAll(crc, data[..i]), data[i])
  {
    hide Absorb;
    assert data[..i + 1][..i] == data[..i];
  }

  lemma AbsorbAllFour(crc: bv32, frame: seq<bv8>)
    requires |frame| >= 4
    ensures var n := |frame| - 4;
      AbsorbAll(crc, frame)
        == Absorb(Absorb(Absorb(Absorb(AbsorbAll(crc, frame[..n]), frame[n]), frame[n + 1]), frame[n + 2]),
            frame[n + 3])
  {
    hide Absorb, AbsorbAll;
    var n := |frame| - 4;
    AbsorbAllNext(crc, frame, n);
    AbsorbAllNext(crc, frame, n + 1);
    AbsorbAllNext(crc, frame, n + 2);
    AbsorbAllNext(crc, frame, n + 3);
    assert frame[..n + 4] == frame;
  }

  lemma LittleEndianOf(b0: bv8, b1: bv8, b2: bv8, b3: bv8)
    ensures LittleEndian(FromLittleEndian(b0, b1, b2, b3)) == [b0, b1, b2, b3]
  {
  }

  function Payload(frame: seq<bv8>): seq<bv8>
    requires |frame| >= 4
  {
    frame[..|frame| - 4]
  }

  function Trailer(frame: seq<bv8>): bv32
    requires |frame| >= 4
  {
    var n := |frame| - 4;
    FromLittleEndian(frame[n], frame[n + 1], frame[n + 2], frame[n + 3])
  }

  lemma AcceptedMeans(frame: seq<bv8>)
    requires |frame| >= 4
    ensures ValidateAndStrip(frame).Some?
       <==> Xor(AbsorbAll(0xFFFF_FFFF, Payload(frame)), Trailer(frame)) == 0xFFFF_FFFF
  {
    hide AbsorbAll, FromLittleEndian, Xor, Invert;
    Complement(AbsorbAll(0xFFFF_FFFF, Payload(frame)), Trailer(frame));
  }

  lemma TrailerAbsorbed(frame: seq<bv8>)
    requires |frame| >= 4
    ensures AbsorbAll(0xFFFF_FFFF, frame)
         == ShiftBy(Xor(AbsorbAll(0xFFFF_FFFF, Payload(frame)), Trailer(frame)), 32)
  {
    var n := |frame| - 4;
    hide AbsorbAll, LittleEndian, FromLittleEndian, Xor, Absorb, ShiftBy;
    LittleEndianOf(frame[n], frame[n + 1], frame[n + 2], frame[n + 3]);
    AbsorbAllFour(0xFFFF_FFFF, frame);
    AbsorbFour(AbsorbAll(0xFFFF_FFFF, Payload(frame)), Trailer(frame));
  }

  /** A frame is accepted exactly when the register, run over payload and
      checksum together, ends at the residue. */
  lemma AcceptedIffResidue(frame: seq<bv8>)
    requires |frame| >= 4
    ensures ValidateAndStrip(frame).Some? <==> AbsorbAll(0xFFFF_FFFF, frame) == RESIDUE
  {
    hide *;
    AcceptedMeans(frame);
    TrailerAbsorbed(frame);
    ResidueValue();
    var x := Xor(AbsorbAll(0xFFFF_FFFF, Payload(frame)), Trailer(frame));
    if ShiftBy(x, 32) == ShiftBy(0xFFFF_FFFF, 32) { ShiftByIsInjective(x, 0xFFFF_FFFF, 32); }
  }

  lemma AcceptedFrames(x: seq<bv8>, y: seq<bv8>)
    requires ValidateAndStrip(x).Some? && ValidateAndStrip(y).Some?
    ensures |x| >= 4 && |y| >= 4 && AbsorbAll(0xFFFF_FFFF, x) == AbsorbAll(0xFFFF_FFFF, y)
  {
    AcceptedIffResidue(x);
    AcceptedIffResidue(y);
    hide AbsorbAll, Checksum, FromLittleEndian;
  }

  lemma WindowIsSeen(crc: bv32, a: seq<bool>, b: seq<bool>, start: nat, end: nat)
    requires |a| == |b| && start <= end <= |a| && end - start <= 32
    requires a[..start] == b[..start] && a[end..] == b[end..] && AbsorbBits(crc, a) == AbsorbBits(crc, b)
    ensures a == b
  {
    hide *;
    var head, tail := a[..start], a[end..];
    var u, v := a[start..end], b[start..end];
    var r := AbsorbBits(crc, head);
    assert a == head + (u + tail) && b == head + (v + tail);
    AbsorbBitsSplit(crc, head, u + tail);
    AbsorbBitsSplit(crc, head, v + tail);
    AbsorbBitsSplit(r, u, tail);
    AbsorbBitsSplit(r, v, tail);
    AbsorbBitsIsInjective(AbsorbBits(r, u), AbsorbBits(r, v), tail);
    BurstsAreSeen(r, u, v);
  }

  /** Two accepted frames of one length never differ only inside a window of 32
      consecutive bits, wherever it lies and whether or not it reaches into the
      checksum: every burst error of up to 32 bits is caught. */
  lemma NoBurstGoesUnseen(x: seq<bv8>, y: seq<bv8>, start: nat, width: nat)
    requires |x| == |y| && ValidateAndStrip(x).Some? && ValidateAndStrip(y).Some?
    requires width <= 32 && start + width <= 8 * |x|
    requires DataBits(x)[..start] == DataBits(y)[..start]
    requires DataBits(x)[start + width..] == DataBits(y)[start + width..]
    ensures x == y
  {
    AcceptedFrames(x, y);
    hide *;
    AbsorbAllIsBitwise(0xFFFF_FFFF, x);
    AbsorbAllIsBitwise(0xFFFF_FFFF, y);
    WindowIsSeen(0xFFFF_FFFF, DataBits(x), DataBits(y), start, start + width);
    DataBitsDetermine(x, y);
  }

  lemma {:induction false} DataBitsSplit(a: seq<bv8>, b: seq<bv8>)
    ensures DataBits(a + b) == DataBits(a) + DataBits(b)
  {
    hide ByteBits;
    if b == [] {
      assert a + b == a;
    } else {
      assert (a + b)[..|a + b| - 1] == a + b[..|b| - 1];
      DataBitsSplit(a, b[..|b| - 1]);
    }
  }

  /** In particular, no change confined to four consecutive bytes. */
  lemma FourBytesNeverUnseen(head: seq<bv8>, was: seq<bv8>, now: seq<bv8>, tail: seq<bv8>)
    requires |was| == |now| <= 4
    requires ValidateAndStrip(head + was + tail).Some? && ValidateAndStrip(head + now + tail).Some?
    ensures was == now
  {
    var x, y := head + was + tail, head + now + tail;
    hide *;
    DataBitsSplit(head + was, tail);
    DataBitsSplit(head, was);
    DataBitsSplit(head + now, tail);
    DataBitsSplit(head, now);
    var start, width := 8 * |head|, 8 * |was|;
    assert DataBits(x)[..start] == DataBits(head) == DataBits(y)[..start];
    assert DataBits(x)[start + width..] == DataBits(tail) == DataBits(y)[start + width..];
    NoBurstGoesUnseen(x, y, start, width);
    assert x[|head|..|head| + |was|] == was && y[|head|..|head| + |was|] == now;
  }

  // ---------- an odd number of bits ----------

  /** Whether an odd number of the low `n` bits of a word are set. */
  function Parity(w: bv32, n: nat): bool { if n == 0 then false else Odd(w) != Parity(Half(w), n - 1) }

  function OddOnes(bits: seq<bool>): bool {
    if bits == [] then false else bits[0] != OddOnes(bits[1..])
  }

  /** In how many places two bit strings differ. */
  function Differences(u: seq<bool>, v: seq<bool>): nat
    requires |u| == |v|
  {
    if u == [] then 0 else (if u[0] != v[0] then 1 else 0) + Differences(u[1..], v[1..])
  }

  lemma ParityStep(w: bv32, n: nat)
    ensures Parity(w, n) == (n > 0 && Odd(w) != Parity(Half(w), n - 1))
  {
  }

  lemma {:induction false} ParityOfXor(a: bv32, b: bv32, n: nat)
    ensures Parity(Xor(a, b), n) == (Parity(a, n) != Parity(b, n))
    decreases n
  {
    hide *;
    ParityStep(a, n);
    ParityStep(b, n);
    ParityStep(Xor(a, b), n);
    if n > 0 {
      XorParts(a, b);
      ParityOfXor(Half(a), Half(b), n - 1);
    }
  }

  lemma {:induction false} ParityBeyond(w: bv32, n: nat)
    requires Fits(w, n)
    ensures Parity(w, n + 1) == Parity(w, n)
    decreases n
  {
    if n > 0 {
      hide Half, Odd;
      ParityBeyond(Half(w), n - 1);
    }
  }

  /** The polynomial has an odd number of terms besides the one shifted out. */
  lemma PolynomialIsOdd()
    ensures Parity(CRC32C_POLYNOMIAL, 32)
  {
    assert Parity(0x2, 2) && Parity(0x8, 4) && Parity(0x20, 6) && !Parity(0x82, 8);
    assert !Parity(0x20b, 10) && !Parity(0x82f, 12) && Parity(0x20bd, 14) && !Parity(0x82f6, 16);
    assert !Parity(0x20bd8, 18) && !Parity(0x82f63, 20) && Parity(0x20bd8e, 22) && Parity(0x82f63b, 24);
    assert !Parity(0x20bd8ed, 26) && !Parity(0x82f63b7, 28) && Parity(0x20bd8ede, 30) && Parity(0x82f63b78, 32);
  }

  lemma {:induction false} NoParity(n: nat)
    ensures !Parity(0, n)
  {
    if n > 0 { NoParity(n - 1); }
  }

  lemma BitWordParity(b: bool)
    ensures Parity(BitWord(b), 32) == b
  {
    NoParity(31);
    assert Half(BitWord(b)) == 0 && Odd(BitWord(b)) == b;
    hide Half, Odd, BitWord;
  }

  lemma HalfFits(w: bv32)
    ensures Fits(Half(w), 31)
  {
    assert Fits(0x1, 1) && Fits(0x7, 3) && Fits(0x1f, 5) && Fits(0x7f, 7);
    assert Fits(0x1ff, 9) && Fits(0x7ff, 11) && Fits(0x1fff, 13) && Fits(0x7fff, 15);
    assert Fits(0x1ffff, 17) && Fits(0x7ffff, 19) && Fits(0x1fffff, 21) && Fits(0x7fffff, 23);
    assert Fits(0x1ffffff, 25) && Fits(0x7ffffff, 27) && Fits(0x1fffffff, 29) && Fits(0x7fffffff, 31);
    FitsLess(0x7FFF_FFFF, Half(w), 31);
  }

  lemma {:induction false} OddlyDifferent(u: seq<bool>, v: seq<bool>)
    requires |u| == |v|
    ensures Differences(u, v) % 2 == 1 <==> OddOnes(u) != OddOnes(v)
  {
    if u != [] { OddlyDifferent(u[1..], v[1..]); }
  }

  lemma ShiftKeepsParity(w: bv32)
    ensures Parity(Shift(w), 32) == Parity(w, 32)
  {
    HalfFits(w);
    PolynomialIsOdd();
    ParityOfXor(Half(w), CRC32C_POLYNOMIAL, 32);
    ParityBeyond(Half(w), 31);
    assert Parity(w, 32) == (Odd(w) != Parity(Half(w), 31));
    hide Half, Xor, Odd, Parity;
  }

  lemma {:induction false} ParityOfAll(crc: bv32, bits: seq<bool>)
    ensures Parity(AbsorbBits(crc, bits), 32) == (Parity(crc, 32) != OddOnes(bits))
    decreases |bits|
  {
    hide Parity, Shift, Xor, BitWord;
    if bits != [] {
      ParityOfXor(crc, BitWord(bits[0]), 32);
      BitWordParity(bits[0]);
      ShiftKeepsParity(Xor(crc, BitWord(bits[0])));
      ParityOfAll(Shift(Xor(crc, BitWord(bits[0]))), bits[1..]);
    }
  }

  lemma SameParity(u: seq<bool>, v: seq<bool>)
    requires |u| == |v| && AbsorbBits(0xFFFF_FFFF, u) == AbsorbBits(0xFFFF_FFFF, v)
    ensures Differences(u, v) % 2 == 0
  {
    hide *;
    ParityOfAll(0xFFFF_FFFF, u);
    ParityOfAll(0xFFFF_FFFF, v);
    OddlyDifferent(u, v);
  }

  /** Two accepted frames of one length never differ in an odd number of bits,
      wherever these lie. */
  lemma NoOddErrorGoesUnseen(x: seq<bv8>, y: seq<bv8>)
    requires |x| == |y| && ValidateAndStrip(x).Some? && ValidateAndStrip(y).Some?
    ensures Differences(DataBits(x), DataBits(y)) % 2 == 0
  {
    AcceptedFrames(x, y);
    hide *;
    AbsorbAllIsBitwise(0xFFFF_FFFF, x);
    AbsorbAllIsBitwise(0xFFFF_FFFF, y);
    SameParity(DataBits(x), DataBits(y));
  }
}
