/** The receiving half of the reliability endpoint: a duplicate filter and a
    64-bit window of acknowledgements, against the set of packets that arrived. */
module AckWindow {
  import opened Wrappers
  import opened SequenceNumbers
  import opened Bits
  import opened SequenceBuffers

  const ACK_BITS_WINDOW := 64
  const MAX_SEQUENCE_DISTANCE := 32768

  /** Arrivals are less than half the sequence space from the newest. */
  const REACH := 32767

  /** `x << d` on a 64-bit word. The machine looks only at the low six bits of
      the shift amount, so a shift by 64 is a shift by nothing. */
  function ShlWord(x: u64, d: nat): (y: u64) {
    LowBound(Shl(x, d % 64), 64);
    WordSizes();
    Low(Shl(x, d % 64), 64)
  }

  function SetBit(x: u64, i: nat): u64
    requires i < 64
  {
    WordSizes();
    ShlBound(1, i, 1);
    Pow2Mono(i + 1, 64);
    OrBound(x, Shl(1, i), 64);
    Or(x, Shl(1, i))
  }

  datatype Inbound = Inbound(remoteSequence: u16, ackBits: u64, received: Ring<bool>)

  function Received(s: Inbound, sequence: u16): (s': Inbound)
    requires s.received.entries != []
    ensures |s'.received.entries| == |s.received.entries|
  {
    var distance := Diff(sequence, s.remoteSequence);
    if distance > MAX_SEQUENCE_DISTANCE || distance < -MAX_SEQUENCE_DISTANCE then s
    else if Lookup(s.received, sequence).Some? then s
    else
      var received := Inserted(s.received, sequence, true);
      if GreaterThan(sequence, s.remoteSequence) then
        var diff := Diff(sequence, s.remoteSequence);
        var bits := if 0 < diff <= ACK_BITS_WINDOW then SetBit(ShlWord(s.ackBits, diff), diff - 1) else 0;
        Inbound(sequence, bits, received)
      else
        var diff := Diff(s.remoteSequence, sequence);
        var bits := if 0 < diff <= ACK_BITS_WINDOW then SetBit(s.ackBits, diff - 1) else s.ackBits;
        Inbound(s.remoteSequence, bits, received)
  }

  /** The distance check never refuses anything: no two numbers are further
      apart than it allows. */
  lemma DistanceNeverRefused(a: u16, b: u16)
    ensures -MAX_SEQUENCE_DISTANCE <= Diff(a, b) <= MAX_SEQUENCE_DISTANCE
  {
  }

  lemma ShlWordBit(x: u64, d: nat, i: nat)
    ensures TestBit(ShlWord(x, d), i) <==> d % 64 <= i < 64 && TestBit(x, i - d % 64)
  {
    LowBit(Shl(x, d % 64), 64, i);
    ShlBit(x, d % 64, i);
  }

  lemma SetBitBit(x: u64, j: nat, i: nat)
    requires j < 64
    ensures TestBit(SetBit(x, j), i) <==> TestBit(x, i) || i == j
  {
    OrBit(x, Shl(1, j), i);
    ShlBit(1, j, i);
    if i > j { HighBitsZero(1, 1, i - j); }
  }

  // ---------- the duplicate filter ----------

  /** The number at or before `newest` that the 16-bit number `s` stands for. */
  function Unwrap(newest: int, s: u16): int { newest - (newest - s) % FULL_RANGE }

  lemma UnwrapOf(newest: int, n: int)
    requires newest - FULL_RANGE < n <= newest
    ensures Unwrap(newest, Wrap(n)) == n
  {
  }

  lemma UnwrapWraps(newest: int, s: u16)
    ensures Wrap(Unwrap(newest, s)) == s && newest - FULL_RANGE < Unwrap(newest, s) <= newest
  {
  }

  predicate GoodSize(size: nat) { Divides(size) && size <= HALF_RANGE }

  /** Whatever is in a slot did arrive, and not too long ago. */
  ghost predicate SlotSound(r: Ring<bool>, newest: int, arrived: set<int>, j: nat)
    requires j < |r.entries|
  {
    r.entries[j].Some? ==>
      var n := Unwrap(newest, r.entries[j].value.0);
      n in arrived && n % |r.entries| == j && newest - n < HALF_RANGE
  }

  ghost predicate Sound(r: Ring<bool>, newest: int, arrived: set<int>) {
    && r.sequence == Wrap(newest)
    && forall j :: 0 <= j < |r.entries| ==> SlotSound(r, newest, arrived, j)
  }

  /** What the filter takes for a duplicate is one. */
  lemma FilterIsSound(r: Ring<bool>, newest: int, arrived: set<int>, n: int)
    requires Sound(r, newest, arrived) && GoodSize(|r.entries|) && -REACH <= n - newest <= REACH
    ensures Lookup(r, Wrap(n)).Some? ==> n in arrived
  {
    var j := Wrap(n) % |r.entries|;
    assert SlotSound(r, newest, arrived, j);
    if Lookup(r, Wrap(n)).Some? {
      var m := Unwrap(newest, Wrap(n));
      UnwrapWraps(newest, Wrap(n));
      SameNumber(m, n);
    }
  }

  lemma SameNumber(m: int, n: int)
    requires Wrap(m) == Wrap(n) && -FULL_RANGE < m - n < FULL_RANGE
    ensures m == n
  {
  }

  lemma {:induction false} OddDivisorIsOne(d: nat, q: nat, n: nat)
    requires d * q == Pow2(n) && q % 2 == 1
    ensures q == 1
  {
    if n == 0 {
      assert q <= d * q by { assert d >= 1; }
    } else {
      assert d % 2 == 0 by { OddTimesOdd(d, q); }
      assert d * q == 2 * (d / 2 * q) by { assert d == 2 * (d / 2); }
      OddDivisorIsOne(d / 2, q, n - 1);
    }
  }

  lemma OddTimesOdd(d: nat, q: nat)
    ensures d % 2 == 1 && q % 2 == 1 ==> (d * q) % 2 == 1
  {
    var a, b := d / 2, q / 2;
    if d % 2 == 1 && q % 2 == 1 {
      assert d * q == (2 * a + 1) * (2 * b + 1) == 2 * (2 * (a * b) + a + b) + 1;
    }
  }

  /** Such a size divides half the space too: the space is a power of two. */
  lemma HalfDivides(size: nat)
    requires GoodSize(size)
    ensures HALF_RANGE == size * (HALF_RANGE / size)
  {
    var q := FULL_RANGE / size;
    assert FULL_RANGE == size * q;
    WordSizes();
    if q % 2 == 1 {
      OddDivisorIsOne(size, q, 16);
    } else {
      assert HALF_RANGE == size * (q / 2) by {
        assert q == 2 * (q / 2);
        assert size * (2 * (q / 2)) == 2 * (size * (q / 2));
      }
      DivUnique(HALF_RANGE, size, q / 2, 0);
    }
  }

  lemma HalfKeepsSlot(size: nat, m: int)
    requires GoodSize(size)
    ensures (m + HALF_RANGE) % size == m % size
  {
    HalfDivides(size);
    SameSlot(size, m + HALF_RANGE, m, HALF_RANGE / size);
  }

  /** An entry that survives the newest number's moving up is still recent. */
  lemma SurvivorIsRecent(r: Ring<bool>, newest: int, arrived: set<int>, k: nat, j: nat)
    requires Sound(r, newest, arrived) && GoodSize(|r.entries|) && k <= REACH && j < |r.entries|
    ensures SlotSound(Cleared(r, k), newest + k, arrived, j)
  {
    var size := |r.entries|;
    ClearedOnlyEmpties(r, k, j);
    assert SlotSound(r, newest, arrived, j);
    if Cleared(r, k).entries[j].Some? {
      var s := r.entries[j].value.0;
      var m := Unwrap(newest, s);
      UnwrapWraps(newest, s);
      if newest + k - m >= HALF_RANGE {
        HalfKeepsSlot(size, m);
        PassedSlot(r, newest, k, m + HALF_RANGE);
      }
      UnwrapOf(newest + k, m);
    }
  }

  lemma MovedUpSound(r: Ring<bool>, newest: int, arrived: set<int>, n: int, j: nat)
    requires Sound(r, newest, arrived) && GoodSize(|r.entries|) && -REACH <= n - newest <= REACH
    requires j < |r.entries|
    ensures SlotSound(MovedUp(r, Wrap(n)), Max(newest, n), arrived, j)
    ensures MovedUp(r, Wrap(n)).sequence == Wrap(Max(newest, n))
  {
    AgreesWithinHalfRange(n, newest);
    if n > newest {
      if n - newest < |r.entries| {
        SurvivorIsRecent(r, newest, arrived, n - newest, j);
        ClearedSequence(r, newest, n - newest);
      }
    } else {
      assert SlotSound(r, newest, arrived, j);
    }
  }

  lemma InsertSound(r: Ring<bool>, newest: int, arrived: set<int>, n: int)
    requires Sound(r, newest, arrived) && GoodSize(|r.entries|) && -REACH <= n - newest <= REACH
    ensures Sound(Inserted(r, Wrap(n), true), Max(newest, n), arrived + {n})
  {
    var q, size := Inserted(r, Wrap(n), true), |r.entries|;
    MovedUpSound(r, newest, arrived, n, 0);
    forall j | 0 <= j < size
      ensures SlotSound(q, Max(newest, n), arrived + {n}, j)
    {
      MovedUpSound(r, newest, arrived, n, j);
      WrapKeepsSlot(size, n);
      if j == n % size { UnwrapOf(Max(newest, n), n); }
      hide MovedUp, Wrap, Unwrap;
    }
  }

  // ---------- the window ----------

  /** Bit i says exactly whether the packet i + 1 before the newest arrived. */
  ghost predicate Exact(bits: u64, newest: int, arrived: set<int>) {
    forall i: nat :: i < ACK_BITS_WINDOW ==> (TestBit(bits, i) <==> newest - (i + 1) in arrived)
  }

  ghost predicate Tracks(s: Inbound, newest: int, arrived: set<int>) {
    && GoodSize(|s.received.entries|) && s.remoteSequence == Wrap(newest)
    && Sound(s.received, newest, arrived)
    && newest in arrived && forall n :: n in arrived ==> n <= newest
  }

  lemma ReceivedTracks(s: Inbound, newest: int, arrived: set<int>, n: int)
    requires Tracks(s, newest, arrived) && -REACH <= n - newest <= REACH
    ensures Tracks(Received(s, Wrap(n)), Max(newest, n), arrived + {n})
  {
    DistanceNeverRefused(Wrap(n), s.remoteSequence);
    AgreesWithinHalfRange(n, newest);
    FilterIsSound(s.received, newest, arrived, n);
    if Lookup(s.received, Wrap(n)).Some? {
      assert arrived + {n} == arrived;
    } else {
      InsertSound(s.received, newest, arrived, n);
    }
    hide Sound, GoodSize, Inserted, Wrap, SetBit, ShlWord, Diff, GreaterThan, Lookup;
  }

  /** The bits after an arrival `k` ahead of the newest number, or `-k` behind. */
  function BitsAfter(bits: u64, k: int): u64 {
    if 0 < k <= ACK_BITS_WINDOW then SetBit(ShlWord(bits, k), k - 1)
    else if k > 0 then 0
    else if -ACK_BITS_WINDOW <= k < 0 then SetBit(bits, -k - 1)
    else bits
  }

  lemma ReceivedBits(s: Inbound, newest: int, n: int)
    requires s.received.entries != [] && s.remoteSequence == Wrap(newest) && -REACH <= n - newest <= REACH
    ensures Received(s, Wrap(n)).ackBits
         == if Lookup(s.received, Wrap(n)).Some? then s.ackBits else BitsAfter(s.ackBits, n - newest)
  {
    AgreesWithinHalfRange(n, newest);
    AgreesWithinHalfRange(newest, n);
    hide Wrap, SetBit, ShlWord, Diff, GreaterThan, Lookup, Inserted;
  }

  /** A jump of exactly the window while any of the 63 low bits is set. */
  predicate Overshifts(bits: u64, k: int) { k == ACK_BITS_WINDOW && Low(bits, 63) != 0 }

  lemma ForwardBit(bits: u64, newest: int, arrived: set<int>, k: nat, i: nat)
    requires Exact(bits, newest, arrived) && newest in arrived && forall n :: n in arrived ==> n <= newest
    requires k > 0 && i < ACK_BITS_WINDOW
    ensures k != ACK_BITS_WINDOW ==>
              (TestBit(BitsAfter(bits, k), i) <==> newest + k - (i + 1) in arrived + {newest + k})
    ensures k == ACK_BITS_WINDOW ==>
              && (TestBit(BitsAfter(bits, k), i) <==> i == 63 || TestBit(bits, i))
              && (newest + k - (i + 1) in arrived + {newest + k} <==> i == 63)
  {
    if k <= ACK_BITS_WINDOW {
      SetBitBit(ShlWord(bits, k), k - 1, i);
      ShlWordBit(bits, k, i);
      if i >= k { assert TestBit(bits, i - k) <==> newest - (i - k + 1) in arrived; }
    } else {
      ZeroBits(i);
    }
  }

  lemma SomeLowBit(bits: u64)
    ensures Low(bits, 63) != 0 <==> exists i: nat :: i < 63 && TestBit(bits, i)
  {
    LowBound(bits, 63);
    if forall i: nat :: i < 63 ==> !TestBit(bits, i) {
      forall i: nat | i < 63
        ensures TestBit(Low(bits, 63), i) <==> TestBit(0, i)
      {
        LowBit(bits, 63, i);
        ZeroBits(i);
      }
      SameBits(Low(bits, 63), 0, 63);
    } else {
      var i: nat :| i < 63 && TestBit(bits, i);
      LowBit(bits, 63, i);
      ZeroBits(i);
    }
  }

  lemma ForwardIsExact(bits: u64, newest: int, arrived: set<int>, k: nat)
    requires Exact(bits, newest, arrived) && newest in arrived && forall n :: n in arrived ==> n <= newest
    requires k > 0
    ensures Exact(BitsAfter(bits, k), newest + k, arrived + {newest + k}) <==> !Overshifts(bits, k)
  {
    SomeLowBit(bits);
    if Overshifts(bits, k) {
      var i: nat :| i < 63 && TestBit(bits, i);
      ForwardBit(bits, newest, arrived, k, i);
    } else {
      var after := BitsAfter(bits, k);
      forall i: nat | i < ACK_BITS_WINDOW
        ensures TestBit(after, i) <==> newest + k - (i + 1) in arrived + {newest + k}
      {
        ForwardBit(bits, newest, arrived, k, i);
      }
    }
  }

  lemma BackwardIsExact(bits: u64, newest: int, arrived: set<int>, k: int)
    requires Exact(bits, newest, arrived) && newest in arrived && k >= 0
    ensures Exact(BitsAfter(bits, -k), newest, arrived + {newest - k})
  {
    var after := BitsAfter(bits, -k);
    forall i: nat | i < ACK_BITS_WINDOW
      ensures TestBit(after, i) <==> newest - (i + 1) in arrived + {newest - k}
    {
      if 0 < k <= ACK_BITS_WINDOW { SetBitBit(bits, k - 1, i); }
      assert TestBit(bits, i) <==> newest - (i + 1) in arrived;
    }
  }

  /** One arrival keeps the window exact unless it jumps ahead by exactly 64
      with other bits set; then it does not. */
  lemma ReceivedIsExactIff(s: Inbound, newest: int, arrived: set<int>, n: int)
    requires Tracks(s, newest, arrived) && Exact(s.ackBits, newest, arrived) && -REACH <= n - newest <= REACH
    ensures Exact(Received(s, Wrap(n)).ackBits, Max(newest, n), arrived + {n})
       <==> !Overshifts(s.ackBits, n - newest)
  {
    ReceivedBits(s, newest, n);
    FilterIsSound(s.received, newest, arrived, n);
    hide Received, Lookup, BitsAfter, Sound, Wrap, TestBit, GoodSize;
    if Lookup(s.received, Wrap(n)).Some? {
      assert arrived + {n} == arrived;
    } else if n > newest {
      ForwardIsExact(s.ackBits, newest, arrived, n - newest);
    } else {
      BackwardIsExact(s.ackBits, newest, arrived, newest - n);
    }
  }

  // ---------- whole runs of arrivals ----------

  function NewEndpoint(size: nat): Inbound { Inbound(0, 0, Ring(Blank(size), 0)) }

  function After(size: nat, arrivals: seq<int>): (s: Inbound)
    requires size > 0
    ensures |s.received.entries| == size
  {
    if arrivals == [] then NewEndpoint(size)
    else Received(After(size, arrivals[..|arrivals| - 1]), Wrap(arrivals[|arrivals| - 1]))
  }

  function NewestOf(arrivals: seq<int>): int {
    if arrivals == [] then 0 else Max(NewestOf(arrivals[..|arrivals| - 1]), arrivals[|arrivals| - 1])
  }

  /** Number 0 counts as arrived from the start. */
  function ArrivedOf(arrivals: seq<int>): set<int> {
    if arrivals == [] then {0} else ArrivedOf(arrivals[..|arrivals| - 1]) + {arrivals[|arrivals| - 1]}
  }

  ghost predicate InReachOf(arrivals: seq<int>) {
    forall i :: 0 <= i < |arrivals| ==> -REACH <= arrivals[i] - NewestOf(arrivals[..i]) <= REACH
  }

  /** No arrival is exactly 64 ahead of the newest before it, or if one is, the
      window then held nothing but its oldest bit. */
  ghost predicate NeverOvershifts(size: nat, arrivals: seq<int>)
    requires size > 0
  {
    forall i :: 0 <= i < |arrivals| ==>
      !Overshifts(After(size, arrivals[..i]).ackBits, arrivals[i] - NewestOf(arrivals[..i]))
  }

  lemma ReachPrefix(arrivals: seq<int>)
    requires InReachOf(arrivals) && arrivals != []
    ensures var k := |arrivals| - 1; var front := arrivals[..k];
      InReachOf(front) && -REACH <= arrivals[k] - NewestOf(front) <= REACH
  {
    hide NewestOf;
    var front := arrivals[..|arrivals| - 1];
    forall i | 0 <= i < |front|
      ensures front[..i] == arrivals[..i]
    {
    }
  }

  lemma OvershiftPrefix(size: nat, arrivals: seq<int>)
    requires size > 0 && NeverOvershifts(size, arrivals) && arrivals != []
    ensures var k := |arrivals| - 1; var front := arrivals[..k];
      NeverOvershifts(size, front) && !Overshifts(After(size, front).ackBits, arrivals[k] - NewestOf(front))
  {
    hide After, NewestOf, Overshifts;
    var front := arrivals[..|arrivals| - 1];
    forall i | 0 <= i < |front|
      ensures front[..i] == arrivals[..i]
    {
    }
  }

  lemma NewEndpointTracks(size: nat)
    requires GoodSize(size)
    ensures Tracks(NewEndpoint(size), 0, {0}) && Exact(0, 0, {0})
  {
    forall i: nat | i < ACK_BITS_WINDOW
      ensures !TestBit(0, i)
    {
      ZeroBits(i);
    }
  }

  lemma {:induction false} RunTracks(size: nat, arrivals: seq<int>)
    requires GoodSize(size) && InReachOf(arrivals)
    ensures Tracks(After(size, arrivals), NewestOf(arrivals), ArrivedOf(arrivals))
  {
    if arrivals == [] {
      NewEndpointTracks(size);
    } else {
      var k := |arrivals| - 1;
      var front := arrivals[..k];
      ReachPrefix(arrivals);
      RunTracks(size, front);
      hide Received, Tracks, GoodSize;
      ReceivedTracks(After(size, front), NewestOf(front), ArrivedOf(front), arrivals[k]);
    }
  }

  /** After any run of arrivals the window says of each of the 64 packets before
      the newest exactly whether it arrived, through duplicates, late arrivals
      and wraps. */
  lemma {:induction false} WindowIsExact(size: nat, arrivals: seq<int>)
    requires GoodSize(size) && InReachOf(arrivals) && NeverOvershifts(size, arrivals)
    ensures Exact(After(size, arrivals).ackBits, NewestOf(arrivals), ArrivedOf(arrivals))
  {
    if arrivals == [] {
      NewEndpointTracks(size);
    } else {
      var k := |arrivals| - 1;
      var front := arrivals[..k];
      ReachPrefix(arrivals);
      OvershiftPrefix(size, arrivals);
      WindowIsExact(size, front);
      RunTracks(size, front);
      hide Received, Tracks, Exact, GoodSize;
      ReceivedIsExactIff(After(size, front), NewestOf(front), ArrivedOf(front), arrivals[k]);
    }
  }

  // ---------- one more arrival ----------

  lemma OneMore(size: nat, arrivals: seq<int>, n: int)
    requires size > 0
    ensures var all := arrivals + [n];
      && After(size, all) == Received(After(size, arrivals), Wrap(n))
      && NewestOf(all) == Max(NewestOf(arrivals), n) && ArrivedOf(all) == ArrivedOf(arrivals) + {n}
  {
    assert (arrivals + [n])[..|arrivals|] == arrivals;
    hide Received, Wrap;
  }

  lemma OneMoreInReach(size: nat, arrivals: seq<int>, n: int)
    requires size > 0 && InReachOf(arrivals) && NeverOvershifts(size, arrivals)
    requires -REACH <= n - NewestOf(arrivals) <= REACH && n - NewestOf(arrivals) != ACK_BITS_WINDOW
    ensures InReachOf(arrivals + [n]) && NeverOvershifts(size, arrivals + [n])
  {
    var all := arrivals + [n];
    assert forall i :: 0 <= i < |arrivals| ==> all[..i] == arrivals[..i];
    assert all[..|arrivals|] == arrivals;
    hide After, NewestOf;
  }

  /** What the filter holds is what came, whatever its size. */
  lemma {:induction false} HeldCame(size: nat, arrivals: seq<int>, k: u16)
    requires size > 0 && Lookup(After(size, arrivals).received, k).Some?
    ensures exists i :: 0 <= i < |arrivals| && Wrap(arrivals[i]) == k
  {
    if arrivals != [] {
      var front, n := arrivals[..|arrivals| - 1], arrivals[|arrivals| - 1];
      var r, w := After(size, front).received, Wrap(n);
      HeldByInsert(r, w, k);
      hide Inserted, Wrap, SetBit, ShlWord, Diff, GreaterThan, Lookup;
      if k == w {
        assert Wrap(arrivals[|arrivals| - 1]) == k;
      } else {
        HeldCame(size, front, k);
        var i :| 0 <= i < |front| && Wrap(front[i]) == k;
        assert Wrap(arrivals[i]) == k;
      }
    }
  }

  lemma HeldByInsert(r: Ring<bool>, w: u16, k: u16)
    requires r.entries != []
    ensures Lookup(Inserted(r, w, true), k).Some? ==> k == w || Lookup(r, k).Some?
  {
    if GreaterThan(w, r.sequence) && 0 <= Diff(w, r.sequence) < |r.entries| {
      ClearedOnlyEmpties(r, Diff(w, r.sequence), k % |r.entries|);
    }
    hide Cleared, GreaterThan, Diff;
  }

  // ---------- which sizes will do ----------

  /** A run in reach, without an overshift, with the newest number known. */
  ghost predicate Built(size: nat, arrivals: seq<int>, newest: int)
    requires size > 0
  {
    && InReachOf(arrivals) && NeverOvershifts(size, arrivals) && NewestOf(arrivals) == newest
    && After(size, arrivals).remoteSequence == After(size, arrivals).received.sequence == Wrap(newest)
  }

  ghost predicate New(arrivals: seq<int>, n: int) { forall i :: 0 <= i < |arrivals| ==> Wrap(arrivals[i]) != Wrap(n) }

  lemma NewIsTaken(size: nat, arrivals: seq<int>, n: int)
    requires size > 0 && New(arrivals, n)
    ensures Lookup(After(size, arrivals).received, Wrap(n)).None?
  {
    hide After;
    if Lookup(After(size, arrivals).received, Wrap(n)).Some? { HeldCame(size, arrivals, Wrap(n)); }
  }

  lemma InsertedSequence(r: Ring<bool>, newest: int, n: int)
    requires r.entries != [] && r.sequence == Wrap(newest) && -REACH <= n - newest <= REACH
    ensures Inserted(r, Wrap(n), true).sequence == Wrap(Max(newest, n))
    ensures Lookup(Inserted(r, Wrap(n), true), Wrap(n)) == Some(true)
  {
    AgreesWithinHalfRange(n, newest);
    if 0 < n - newest < |r.entries| { ClearedSequence(r, newest, n - newest); }
    hide Cleared, Wrap, GreaterThan, Diff;
  }

  lemma Build(size: nat, arrivals: seq<int>, newest: int, n: int)
    requires size > 0 && Built(size, arrivals, newest) && New(arrivals, n)
    requires -REACH <= n - newest <= REACH && n - newest != ACK_BITS_WINDOW
    ensures Built(size, arrivals + [n], Max(newest, n))
    ensures var s := After(size, arrivals);
      && After(size, arrivals + [n]).received == Inserted(s.received, Wrap(n), true)
      && After(size, arrivals + [n]).ackBits == BitsAfter(s.ackBits, n - newest)
      && Lookup(After(size, arrivals + [n]).received, Wrap(n)).Some?
  {
    var s := After(size, arrivals);
    NewIsTaken(size, arrivals, n);
    OneMore(size, arrivals, n);
    OneMoreInReach(size, arrivals, n);
    ReceivedBits(s, newest, n);
    InsertedSequence(s.received, newest, n);
    AgreesWithinHalfRange(n, newest);
    DistanceNeverRefused(Wrap(n), s.remoteSequence);
    hide After, InReachOf, NeverOvershifts, NewestOf, ArrivedOf, Inserted, Lookup, Wrap, BitsAfter, SetBit, ShlWord,
      GreaterThan, Diff;
  }

  lemma TwoPassed(r: Ring<bool>, newest: int, late: u16)
    requires |r.entries| > 2 && r.sequence == Wrap(newest) && Lookup(r, late).Some?
    requires Wrap(newest + 1) % |r.entries| != late % |r.entries|
    requires Wrap(newest + 2) % |r.entries| != late % |r.entries|
    ensures Lookup(Inserted(r, Wrap(newest + 2), true), late).Some?
  {
    AgreesWithinHalfRange(newest + 2, newest);
    var one, two := Cleared(r, 1), Cleared(r, 2);
    WrapNext(newest);
    WrapNext(newest + 1);
    assert Cleared(r, 0) == r;
    hide Wrap, WrappingAdd, GreaterThan, Diff;
    assert one.sequence == Wrap(newest + 1) && two.sequence == Wrap(newest + 2);
  }

  /** A run that ends in the refusal of a new packet, 65536 after a late one whose
      slot is not passed in time. */
  lemma Refuses(size: nat, up: seq<int>, late: int)
    requires size > 2 && Built(size, up, late + REACH)
    requires New(up, late) && New(up + [late], late + REACH + 2)
    requires Wrap(late + REACH + 1) % size != Wrap(late) % size && Wrap(late + REACH + 2) % size != Wrap(late) % size
    requires forall i :: 0 <= i < |up| ==> 0 <= up[i] <= late + REACH
    requires late > 0
    ensures var run, n := up + [late] + [late + REACH + 2], late + FULL_RANGE;
      && Built(size, run, late + REACH + 2) && n !in ArrivedOf(run) && n - 2 !in ArrivedOf(run)
      && Lookup(After(size, run).received, Wrap(n)).Some? && TestBit(After(size, run).ackBits, 1)
  {
    hide After, Built, New, ArrivedOf, NewestOf, Lookup, TestBit, Wrap, Inserted, BitsAfter;
    var newest := late + REACH;
    WrapRound(late);
    Build(size, up, newest, late);
    Build(size, up + [late], newest, newest + 2);
    BuiltAt(size, up + [late], newest);
    TwoPassed(After(size, up + [late]).received, newest, Wrap(late));
    TwoOnSetsBit(After(size, up + [late]).ackBits);
    NoneBeyond(up, newest);
    OneMore(size, up, late);
    OneMore(size, up + [late], newest + 2);
  }

  lemma WrapRound(n: int)
    ensures Wrap(n + FULL_RANGE) == Wrap(n)
  {
  }

  lemma BuiltAt(size: nat, arrivals: seq<int>, newest: int)
    requires size > 0 && Built(size, arrivals, newest)
    ensures After(size, arrivals).received.sequence == Wrap(newest)
  {
  }

  lemma TwoOnSetsBit(bits: u64)
    ensures TestBit(BitsAfter(bits, 2), 1)
  {
    SetBitBit(ShlWord(bits, 2), 1, 1);
    hide SetBit, ShlWord, TestBit;
  }

  lemma {:induction false} NoneBeyond(arrivals: seq<int>, most: int)
    requires most >= 0 && forall i :: 0 <= i < |arrivals| ==> arrivals[i] <= most
    ensures forall n :: n in ArrivedOf(arrivals) ==> n <= most
  {
    if arrivals != [] { NoneBeyond(arrivals[..|arrivals| - 1], most); }
  }

  lemma Apart(size: int, a: int, b: int)
    requires size > 0 && (a - b) % size != 0
    ensures a % size != b % size
  {
    if a % size == b % size {
      var k := a / size - b / size;
      assert a == size * (a / size) + a % size && b == size * (b / size) + b % size;
      assert a - b == 0 + size * k by { assert size * k == size * (a / size) - size * (b / size); }
      SameSlot(size, a - b, 0, k);
    }
  }

  lemma NotGoodMeans(size: nat)
    requires size > 0 && !GoodSize(size)
    ensures size > 2 && HALF_RANGE % size != 0
  {
    if HALF_RANGE % size == 0 {
      var q := HALF_RANGE / size;
      assert HALF_RANGE == size * q;
      assert FULL_RANGE == 0 + size * (2 * q) by { assert size * (2 * q) == 2 * (size * q); }
      SameSlot(size, FULL_RANGE, 0, 2 * q);
      Multiple(size, q);
    }
  }

  /** 20000, 32768 and, late, 1; then 32770: after it 65537 is refused, unless the
      size divides 32769. */
  lemma RefusesOne(size: nat)
    requires size > 2 && HALF_RANGE % size != 0 && (HALF_RANGE + 1) % size != 0
    ensures var run := [20000, 32768, 1, 32770];
      && Built(size, run, 32770) && 65537 !in ArrivedOf(run) && 65535 !in ArrivedOf(run)
      && Lookup(After(size, run).received, Wrap(65537)).Some? && TestBit(After(size, run).ackBits, 1)
  {
    hide After, ArrivedOf, TestBit, Lookup;
    BuiltNone(size);
    Build(size, [], 0, 20000);
    assert [] + [20000] == [20000];
    Build(size, [20000], 20000, 32768);
    assert [20000] + [32768] == [20000, 32768];
    Apart(size, 32769, 1);
    Apart(size, 32770, 1);
    Refuses(size, [20000, 32768], 1);
    assert [20000, 32768] + [1] + [32770] == [20000, 32768, 1, 32770];
  }

  /** 30000, 60000, 72767 and, late, 40000; then 72769: after it 105536 is refused. */
  lemma RefusesOther(size: nat)
    requires size > 2 && HALF_RANGE % size != 0 && (HALF_RANGE + 1) % size == 0
    ensures var run := [30000, 60000, 72767, 40000, 72769];
      && Built(size, run, 72769) && 105536 !in ArrivedOf(run) && 105534 !in ArrivedOf(run)
      && Lookup(After(size, run).received, Wrap(105536)).Some? && TestBit(After(size, run).ackBits, 1)
  {
    hide After, ArrivedOf, TestBit, Lookup, Built, GoodSize;
    BuiltToThree(size);
    NotBoth(size);
    Apart(size, 40000, 7232);
    Apart(size, 40000, 7233);
    assert Wrap(72768) == 7232 && Wrap(72769) == 7233 && Wrap(40000) == 40000;
    Refuses(size, [30000, 60000, 72767], 40000);
    assert [30000, 60000, 72767] + [40000] + [72769] == [30000, 60000, 72767, 40000, 72769];
  }

  lemma BuiltToThree(size: nat)
    requires size > 0
    ensures Built(size, [30000, 60000, 72767], 72767)
  {
    hide After, Built;
    BuiltNone(size);
    Build(size, [], 0, 30000);
    assert [] + [30000] == [30000];
    Build(size, [30000], 30000, 60000);
    assert [30000] + [60000] == [30000, 60000];
    Build(size, [30000, 60000], 60000, 72767);
    assert [30000, 60000] + [72767] == [30000, 60000, 72767];
  }

  lemma BuiltNone(size: nat)
    requires size > 0
    ensures Built(size, [], 0)
  {
  }

  lemma NotBoth(size: nat)
    requires size > 2 && (HALF_RANGE + 1) % size == 0
    ensures (HALF_RANGE - 1) % size != 0
  {
    if (HALF_RANGE - 1) % size == 0 { OwnSlot(size, HALF_RANGE + 1, HALF_RANGE - 1); }
  }

  /** A run for every other size. */
  lemma BadSizeRefuses(size: nat) returns (run: seq<int>, n: int)
    requires size > 0 && !GoodSize(size)
    ensures Built(size, run, n - REACH) && n !in ArrivedOf(run) && n - 2 !in ArrivedOf(run)
    ensures Lookup(After(size, run).received, Wrap(n)).Some? && TestBit(After(size, run).ackBits, 1)
  {
    NotGoodMeans(size);
    hide Built, After, ArrivedOf, Lookup, TestBit, Wrap;
    if (HALF_RANGE + 1) % size != 0 {
      RefusesOne(size);
      run, n := [20000, 32768, 1, 32770], 65537;
    } else {
      RefusesOther(size);
      run, n := [30000, 60000, 72767, 40000, 72769], 105536;
    }
  }

  /** After any run within reach the filter takes nothing for a duplicate that
      has not arrived. */
  ghost predicate FilterIsTrusty(size: nat)
    requires size > 0
  {
    forall arrivals: seq<int>, n: int ::
      InReachOf(arrivals) && -REACH <= n - NewestOf(arrivals) <= REACH ==>
        (Lookup(After(size, arrivals).received, Wrap(n)).Some? ==> n in ArrivedOf(arrivals))
  }

  /** Of all the sizes there are, the filter can be trusted with exactly those for
      which the window was proved exact. */
  lemma TrustyIffGoodSize(size: nat)
    requires size > 0
    ensures FilterIsTrusty(size) <==> GoodSize(size)
  {
    if GoodSize(size) {
      forall arrivals: seq<int>, n: int | InReachOf(arrivals) && -REACH <= n - NewestOf(arrivals) <= REACH
        ensures Lookup(After(size, arrivals).received, Wrap(n)).Some? ==> n in ArrivedOf(arrivals)
      {
        RunTracks(size, arrivals);
        hide After;
        FilterIsSound(After(size, arrivals).received, NewestOf(arrivals), ArrivedOf(arrivals), n);
      }
    } else {
      var run, n := BadSizeRefuses(size);
    }
  }

  ghost predicate WindowIsTrusty(size: nat)
    requires size > 0
  {
    forall arrivals: seq<int> :: InReachOf(arrivals) && NeverOvershifts(size, arrivals) ==>
      Exact(After(size, arrivals).ackBits, NewestOf(arrivals), ArrivedOf(arrivals))
  }

  /** And with every other size the refusal leaves the window itself wrong. */
  lemma ExactIffGoodSize(size: nat)
    requires size > 0
    ensures WindowIsTrusty(size) <==> GoodSize(size)
  {
    if GoodSize(size) {
      forall arrivals: seq<int> | InReachOf(arrivals) && NeverOvershifts(size, arrivals)
        ensures Exact(After(size, arrivals).ackBits, NewestOf(arrivals), ArrivedOf(arrivals))
      {
        WindowIsExact(size, arrivals);
      }
    } else {
      var run := BadSizeFails(size);
    }
  }

  lemma BadSizeFails(size: nat) returns (all: seq<int>)
    requires size > 0 && !GoodSize(size)
    ensures InReachOf(all) && NeverOvershifts(size, all)
    ensures !Exact(After(size, all).ackBits, NewestOf(all), ArrivedOf(all))
  {
    hide After, ArrivedOf, NewestOf, InReachOf, NeverOvershifts, TestBit, GoodSize, Lookup, Wrap, Built, Exact;
    var run, n := BadSizeRefuses(size);
    BuiltIs(size, run, n - REACH);
    Refused(size, run, n);
    OneMore(size, run, n);
    OneMoreInReach(size, run, n);
    all := run + [n];
    NotExact(After(size, all).ackBits, n, ArrivedOf(all));
  }

  lemma BuiltIs(size: nat, arrivals: seq<int>, newest: int)
    requires size > 0 && Built(size, arrivals, newest)
    ensures InReachOf(arrivals) && NeverOvershifts(size, arrivals) && NewestOf(arrivals) == newest
  {
  }

  lemma NotExact(bits: u64, newest: int, arrived: set<int>)
    requires TestBit(bits, 1) && newest - 2 !in arrived
    ensures !Exact(bits, newest, arrived)
  {
    assert TestBit(bits, 1) && newest - (1 + 1) !in arrived;
  }

  lemma Refused(size: nat, run: seq<int>, n: int)
    requires size > 0 && Lookup(After(size, run).received, Wrap(n)).Some?
    ensures Received(After(size, run), Wrap(n)) == After(size, run)
  {
    DistanceNeverRefused(Wrap(n), After(size, run).remoteSequence);
    hide After, Lookup, Wrap, Diff, Inserted;
  }

  /** And a packet ahead is taken for one only up to half the space: beyond it
      the newest number stays, so the reach itself cannot be longer either. */
  lemma AheadIffWithinHalf(s: Inbound, newest: int, k: nat)
    requires s.received.entries != [] && s.remoteSequence == Wrap(newest) && 0 < k < FULL_RANGE
    requires Lookup(s.received, Wrap(newest + k)).None?
    ensures Received(s, Wrap(newest + k)).remoteSequence == Wrap(newest + k)
       <==> k < HALF_RANGE || (k == HALF_RANGE && Wrap(newest + k) > Wrap(newest))
  {
    DistanceNeverRefused(Wrap(newest + k), s.remoteSequence);
    GreaterThanByDistance(newest + k, newest);
    DistanceRound(newest, k);
    hide Wrap, GreaterThan, Inserted, Lookup, Diff, SetBit, ShlWord;
  }

  lemma DistanceRound(newest: int, k: nat)
    requires 0 < k < FULL_RANGE
    ensures (newest + k - newest) % FULL_RANGE == k && Wrap(newest + k) != Wrap(newest)
  {
  }

  /** Packets 1 and then 65: the window now acknowledges packet 64, which never
      came. */
  lemma FalseAcknowledgement(size: nat)
    requires GoodSize(size)
    ensures var s := After(size, [1, 65]);
      && NewestOf([1, 65]) == 65 && s.remoteSequence == Wrap(65)
      && TestBit(s.ackBits, 0) && 64 !in ArrivedOf([1, 65])
  {
    var one := [1];
    assert one[..0] == [] && [1, 65][..1] == one;
    assert ArrivedOf(one) == {0, 1} && NewestOf(one) == 1;
    WindowIsExact(size, one);
    RunTracks(size, one);
    var s := After(size, one);
    assert TestBit(s.ackBits, 0) <==> 1 - (0 + 1) in {0, 1};
    ReceivedTracks(s, 1, {0, 1}, 65);
    hide Received, BitsAfter, TestBit, Wrap, Sound, Lookup, Overshifts, GoodSize;
    FilterIsSound(s.received, 1, {0, 1}, 65);
    ReceivedBits(s, 1, 65);
    ForwardBit(s.ackBits, 1, {0, 1}, 64, 0);
  }
}
