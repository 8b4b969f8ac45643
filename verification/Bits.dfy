/** Bitwise operations on unsigned words, as arithmetic on natural numbers. */
module Bits {
  function Pow2(n: nat): (p: nat)
    ensures p >= 1
  {
    if n == 0 then 1 else 2 * Pow2(n - 1)
  }

  /** Bit `i` of `x`, bit 0 being the least significant. */
  predicate TestBit(x: nat, i: nat) {
    if i == 0 then x % 2 == 1 else TestBit(x / 2, i - 1)
  }

  function Bit(b: bool): nat { if b then 1 else 0 }

  function Or(x: nat, y: nat): nat
    decreases x + y
  {
    if x == 0 then y else if y == 0 then x
    else 2 * Or(x / 2, y / 2) + Bit(x % 2 == 1 || y % 2 == 1)
  }

  function And(x: nat, y: nat): nat
    decreases x + y
  {
    if x == 0 || y == 0 then 0
    else 2 * And(x / 2, y / 2) + Bit(x % 2 == 1 && y % 2 == 1)
  }

  /** `x << s`, before the result is cut to a word. */
  function Shl(x: nat, s: nat): nat { if s == 0 then x else 2 * Shl(x, s - 1) }

  function Shr(x: nat, s: nat): nat { if s == 0 then x else Shr(x / 2, s - 1) }

  /** The low `n` bits of `x`. */
  function Low(x: nat, n: nat): nat {
    if n == 0 then 0 else x % 2 + 2 * Low(x / 2, n - 1)
  }

  /** `(1 << n) - 1` */
  function Mask(n: nat): nat { Pow2(n) - 1 }

  lemma Halve(y: nat, b: bool)
    ensures (2 * y + Bit(b)) / 2 == y && ((2 * y + Bit(b)) % 2 == 1 <==> b)
  {
  }

  lemma {:induction false} ZeroBits(i: nat)
    ensures !TestBit(0, i)
  {
    if i > 0 { ZeroBits(i - 1); }
  }

  lemma {:induction false} OrBit(x: nat, y: nat, i: nat)
    ensures TestBit(Or(x, y), i) <==> TestBit(x, i) || TestBit(y, i)
    decreases i
  {
    ZeroBits(i);
    if x != 0 && y != 0 {
      Halve(Or(x / 2, y / 2), x % 2 == 1 || y % 2 == 1);
      if i > 0 { OrBit(x / 2, y / 2, i - 1); }
    }
  }

  lemma {:induction false} AndBit(x: nat, y: nat, i: nat)
    ensures TestBit(And(x, y), i) <==> TestBit(x, i) && TestBit(y, i)
    decreases i
  {
    ZeroBits(i);
    if x != 0 && y != 0 {
      Halve(And(x / 2, y / 2), x % 2 == 1 && y % 2 == 1);
      if i > 0 { AndBit(x / 2, y / 2, i - 1); }
    }
  }

  lemma {:induction false} ShlBit(x: nat, s: nat, i: nat)
    ensures TestBit(Shl(x, s), i) <==> i >= s && TestBit(x, i - s)
    decreases s
  {
    if s > 0 {
      Halve(Shl(x, s - 1), false);
      if i > 0 { ShlBit(x, s - 1, i - 1); }
    }
  }

  lemma {:induction false} ShrBit(x: nat, s: nat, i: nat)
    ensures TestBit(Shr(x, s), i) <==> TestBit(x, i + s)
  {
    if s > 0 { ShrBit(x / 2, s - 1, i); }
  }

  lemma {:induction false} LowBit(x: nat, n: nat, i: nat)
    ensures TestBit(Low(x, n), i) <==> i < n && TestBit(x, i)
    decreases i
  {
    if n == 0 { ZeroBits(i); }
    else {
      Halve(Low(x / 2, n - 1), x % 2 == 1);
      if i > 0 { LowBit(x / 2, n - 1, i - 1); }
    }
  }

  lemma {:induction false} LowBound(x: nat, n: nat)
    ensures Low(x, n) < Pow2(n)
  {
    if n > 0 { LowBound(x / 2, n - 1); }
  }

  /** A number below 2^n is its own low n bits. */
  lemma {:induction false} LowFix(x: nat, n: nat)
    requires x < Pow2(n)
    ensures Low(x, n) == x
  {
    if n > 0 { LowFix(x / 2, n - 1); }
  }

  lemma {:induction false} LowIsMod(x: nat, n: nat)
    ensures Low(x, n) == x % Pow2(n)
  {
    if n > 0 {
      LowIsMod(x / 2, n - 1);
      var p, q := Pow2(n - 1), x / 2 / Pow2(n - 1);
      assert x / 2 == p * q + x / 2 % p;
      assert x == 2 * (x / 2) + x % 2;
      var r := x % 2 + 2 * (x / 2 % p);
      assert x == (2 * p) * q + r by { assert 2 * (p * q) == (2 * p) * q; }
      DivUnique(x, 2 * p, q, r);
    }
  }

  lemma DivUnique(n: nat, m: nat, q: int, r: nat)
    requires m > 0 && n == m * q + r && r < m
    ensures n / m == q && n % m == r
  {
    var k := n / m - q;
    assert n == m * (n / m) + n % m;
    assert m * k == r - n % m by { assert m * k == m * (n / m) - m * q; }
    assert k >= 1 ==> m * k >= m;
    assert k <= -1 ==> m * k + m <= 0;
  }

  lemma {:induction false} MaskIsLow(x: nat, n: nat)
    ensures And(x, Mask(n)) == Low(x, n)
  {
    if n == 0 {
    } else {
      MaskIsLow(x / 2, n - 1);
      assert Mask(n) == 2 * Mask(n - 1) + 1;
      if x == 0 { LowFix(0, n); }
    }
  }

  /** Two numbers with the same bits below n, and nothing above, are equal. */
  lemma {:induction false} SameBits(x: nat, y: nat, n: nat)
    requires x < Pow2(n) && y < Pow2(n)
    requires forall i: nat :: i < n ==> (TestBit(x, i) <==> TestBit(y, i))
    ensures x == y
  {
    if n > 0 {
      assert TestBit(x, 0) <==> TestBit(y, 0);
      forall i: nat | i < n - 1
        ensures TestBit(x / 2, i) <==> TestBit(y / 2, i)
      {
        assert TestBit(x, i + 1) <==> TestBit(y, i + 1);
      }
      SameBits(x / 2, y / 2, n - 1);
    }
  }

  lemma {:induction false} HighBitsZero(x: nat, n: nat, i: nat)
    requires x < Pow2(n) && n <= i
    ensures !TestBit(x, i)
  {
    LowFix(x, n);
    LowBit(x, n, i);
  }

  lemma {:induction false} OrBound(x: nat, y: nat, n: nat)
    requires x < Pow2(n) && y < Pow2(n)
    ensures Or(x, y) < Pow2(n)
  {
    if n > 0 && x != 0 && y != 0 { OrBound(x / 2, y / 2, n - 1); }
  }

  lemma {:induction false} AndBound(x: nat, y: nat)
    ensures And(x, y) <= x && And(x, y) <= y
    decreases x + y
  {
    if x != 0 && y != 0 { AndBound(x / 2, y / 2); }
  }

  lemma {:induction false} ShlBound(x: nat, s: nat, n: nat)
    requires x < Pow2(n)
    ensures Shl(x, s) < Pow2(n + s)
  {
    if s > 0 { ShlBound(x, s - 1, n); }
  }

  lemma {:induction false} ShlIsTimes(x: nat, s: nat)
    ensures Shl(x, s) == x * Pow2(s)
  {
    if s > 0 {
      ShlIsTimes(x, s - 1);
      assert 2 * (x * Pow2(s - 1)) == x * (2 * Pow2(s - 1));
    }
  }

  lemma {:induction false} Pow2Mono(a: nat, b: nat)
    requires a <= b
    ensures Pow2(a) <= Pow2(b)
    decreases b - a
  {
    if a < b { Pow2Mono(a, b - 1); }
  }

  /** Clearing one bit: the complement of a single-bit byte. */
  lemma {:induction false} ComplementBit(x: nat, n: nat, i: nat)
    requires x < Pow2(n) && i < n
    ensures TestBit(Mask(n) - x, i) <==> !TestBit(x, i)
  {
    var h := Mask(n - 1) - x / 2;
    assert Mask(n) - x == 2 * h + (1 - x % 2);
    if i > 0 { ComplementBit(x / 2, n - 1, i - 1); }
  }

  lemma ByteMask()
    ensures Pow2(8) == 0x100 && Mask(8) == 0xFF
  {
    assert Pow2(4) == 16;
  }

  lemma WordSizes()
    ensures Pow2(3) == 8 && Pow2(4) == 16 && Pow2(8) == 0x100 && Pow2(16) == 0x1_0000
    ensures Pow2(32) == 0x1_0000_0000 && Pow2(64) == 0x1_0000_0000_0000_0000
  {
    assert Pow2(4) == 0x10;
    assert Pow2(8) == 0x100;
    assert Pow2(12) == 0x1000;
    assert Pow2(16) == 0x10000;
    assert Pow2(20) == 0x100000;
    assert Pow2(24) == 0x1000000;
    assert Pow2(28) == 0x10000000;
    assert Pow2(32) == 0x100000000;
    assert Pow2(36) == 0x1000000000;
    assert Pow2(40) == 0x10000000000;
    assert Pow2(44) == 0x100000000000;
    assert Pow2(48) == 0x1000000000000;
    assert Pow2(52) == 0x10000000000000;
    assert Pow2(56) == 0x100000000000000;
    assert Pow2(60) == 0x1000000000000000;
  }

  lemma TestSingleBit(x: nat, j: nat)
    ensures And(x, Shl(1, j)) != 0 <==> TestBit(x, j)
  {
    var y := And(x, Shl(1, j));
    AndBit(x, Shl(1, j), j);
    ShlBit(1, j, j);
    ZeroBits(j);
    if !TestBit(x, j) {
      ShlBound(1, j, 1);
      AndBound(x, Shl(1, j));
      LowFix(0, j + 1);
      forall i: nat | i < j + 1
        ensures TestBit(y, i) <==> TestBit(0, i)
      {
        AndBit(x, Shl(1, j), i);
        ShlBit(1, j, i);
        ZeroBits(i);
      }
      SameBits(y, 0, j + 1);
    }
  }
}
