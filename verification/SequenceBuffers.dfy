/** A circular buffer indexed by 16-bit sequence numbers, and the map from
    unbounded numbers that it refines. */
module SequenceBuffers {
  import opened Wrappers
  import opened SequenceNumbers

  /** The slots, and the newest number inserted. */
  datatype Ring<T> = Ring(entries: seq<Option<(u16, T)>>, sequence: u16)

  function Blank<T>(size: nat): seq<Option<(u16, T)>> { seq(size, _ => None) }

  /** Moves the newest number on by `k`, emptying each slot it passes. */
  function Cleared<T>(r: Ring<T>, k: nat): (q: Ring<T>)
    requires r.entries != []
    ensures |q.entries| == |r.entries|
  {
    if k == 0 then r
    else
      var q := Cleared(r, k - 1);
      var next := WrappingAdd(q.sequence, 1);
      Ring(q.entries[next % |q.entries| := None], next)
  }

  /** The buffer after the newest number has moved up to `sequence`, if that is
      newer. */
  function MovedUp<T>(r: Ring<T>, sequence: u16): (q: Ring<T>)
    requires r.entries != []
    ensures |q.entries| == |r.entries|
  {
    if GreaterThan(sequence, r.sequence) then
      if Diff(sequence, r.sequence) < |r.entries| then Cleared(r, Diff(sequence, r.sequence))
      else Ring(Blank(|r.entries|), sequence)
    else r
  }

  function Inserted<T>(r: Ring<T>, sequence: u16, data: T): (q: Ring<T>)
    requires r.entries != []
    ensures |q.entries| == |r.entries|
  {
    var q := MovedUp(r, sequence);
    Ring(q.entries[sequence % |q.entries| := Some((sequence, data))], q.sequence)
  }

  function Lookup<T>(r: Ring<T>, sequence: u16): Option<T>
    requires r.entries != []
  {
    match r.entries[sequence % |r.entries|]
    case Some((stored, data)) => if stored == sequence then Some(data) else None
    case None => None
  }

  class SequenceBuffer<T> {
    const entries: array<Option<(u16, T)>>
    var sequence: u16

    ghost function Contents(): Ring<T>
      reads this, entries
    {
      Ring(entries[..], sequence)
    }

    constructor (size: nat)
      ensures fresh(entries) && entries.Length == size && Contents() == Ring(Blank(size), 0)
    {
      entries := new Option<(u16, T)>[size](_ => None);
      sequence := 0;
    }

    method Insert(sequence: u16, data: T)
      requires entries.Length > 0
      modifies this, entries
      ensures Contents() == Inserted(old(Contents()), sequence, data)
    {
      if GreaterThan(sequence, this.sequence) {
        var diff := Diff(sequence, this.sequence);
        if diff < entries.Length {
          for i := 0 to diff
            invariant Contents() == Cleared(old(Contents()), i)
          {
            this.sequence := WrappingAdd(this.sequence, 1);
            entries[this.sequence % entries.Length] := None;
          }
        } else {
          for i := 0 to entries.Length
            invariant forall j :: 0 <= j < i ==> entries[j] == None
            invariant this.sequence == old(this.sequence)
          {
            entries[i] := None;
          }
          this.sequence := sequence;
          assert entries[..] == Blank(entries.Length);
        }
      }
      assert Contents() == MovedUp(old(Contents()), sequence);
      entries[sequence % entries.Length] := Some((sequence, data));
    }

    method Exists(sequence: u16) returns (found: bool)
      requires entries.Length > 0
      ensures found <==> Lookup(Contents(), sequence).Some?
    {
      var entry := entries[sequence % entries.Length];
      found := entry.Some? && entry.value.0 == sequence;
    }

    method Get(sequence: u16) returns (data: Option<T>)
      requires entries.Length > 0
      ensures data == Lookup(Contents(), sequence)
    {
      match entries[sequence % entries.Length]
      case Some((stored, d)) => data := if stored == sequence then Some(d) else None;
      case None => data := None;
    }
  }

  // ---------- slots ----------

  /** Sizes for which the wrap from 65535 to 0 does not disturb the slots. */
  predicate Divides(size: nat) { size > 0 && FULL_RANGE % size == 0 }

  lemma Multiple(size: int, k: int)
    requires size > 0
    ensures k >= 1 ==> size * k >= size
    ensures k <= -1 ==> size * k <= -size
    ensures k == 0 ==> size * k == 0
  {
  }

  lemma SameSlot(size: int, a: int, b: int, k: int)
    requires size > 0 && a == b + size * k
    ensures a % size == b % size
  {
    var m := a / size - b / size - k;
    assert a == size * (a / size) + a % size && b == size * (b / size) + b % size;
    assert size * m == b % size - a % size by {
      assert size * m == size * (a / size) - size * (b / size) - size * k;
    }
    Multiple(size, m);
  }

  lemma OwnSlot(size: int, a: int, b: int)
    requires size > 0 && a % size == b % size && -size < a - b < size
    ensures a == b
  {
    var m := a / size - b / size;
    assert a == size * (a / size) + a % size && b == size * (b / size) + b % size;
    assert a - b == size * m by { assert size * m == size * (a / size) - size * (b / size); }
    Multiple(size, m);
  }

  lemma WrapKeepsSlot(size: nat, n: int)
    requires Divides(size)
    ensures Wrap(n) % size == n % size
  {
    var q, d := n / FULL_RANGE, FULL_RANGE / size;
    assert FULL_RANGE == size * d;
    assert n == Wrap(n) + FULL_RANGE * q;
    assert FULL_RANGE * q == size * (d * q) by { assert (size * d) * q == size * (d * q); }
    SameSlot(size, n, Wrap(n), d * q);
  }

  /** For any other size the wrap brings 65536 to the slot of a number still
      among the last `size`. */
  lemma OtherSizesCollide(size: nat)
    requires 0 < size <= FULL_RANGE && !Divides(size)
    ensures var n := FULL_RANGE - FULL_RANGE % size;
            0 < FULL_RANGE - n < size && Wrap(n) % size == Wrap(FULL_RANGE) % size
  {
    var q := FULL_RANGE / size;
    var n := FULL_RANGE - FULL_RANGE % size;
    assert n == 0 + size * q;
    SameSlot(size, n, 0, q);
  }

  // ---------- clearing ----------

  lemma {:induction false} ClearedSequence<T>(r: Ring<T>, newest: int, k: nat)
    requires r.entries != [] && r.sequence == Wrap(newest)
    ensures Cleared(r, k).sequence == Wrap(newest + k)
  {
    hide Wrap, WrappingAdd;
    if k > 0 {
      ClearedSequence(r, newest, k - 1);
      WrapNext(newest + k - 1);
    }
  }

  lemma ClearedStep<T>(r: Ring<T>, newest: int, k: nat)
    requires Divides(|r.entries|) && r.sequence == Wrap(newest) && k > 0
    ensures Cleared(r, k).entries == Cleared(r, k - 1).entries[(newest + k) % |r.entries| := None]
  {
    hide Wrap, WrappingAdd;
    ClearedSequence(r, newest, k - 1);
    WrapNext(newest + k - 1);
    WrapKeepsSlot(|r.entries|, newest + k);
  }

  /** The slot of every number passed is emptied. */
  lemma {:induction false} PassedSlot<T>(r: Ring<T>, newest: int, k: nat, m: int)
    requires Divides(|r.entries|) && r.sequence == Wrap(newest) && newest < m <= newest + k
    ensures Cleared(r, k).entries[m % |r.entries|] == None
  {
    ClearedStep(r, newest, k);
    hide Cleared, Wrap;
    if m < newest + k { PassedSlot(r, newest, k - 1, m); }
  }

  /** The slots of the numbers that stay among the last `size` are kept. */
  lemma {:induction false} KeptSlot<T>(r: Ring<T>, newest: int, k: nat, n: int)
    requires Divides(|r.entries|) && r.sequence == Wrap(newest) && newest + k - |r.entries| < n <= newest
    ensures Cleared(r, k).entries[n % |r.entries|] == r.entries[n % |r.entries|]
  {
    if k > 0 {
      ClearedStep(r, newest, k);
      KeptSlot(r, newest, k - 1, n);
      if (newest + k) % |r.entries| == n % |r.entries| { OwnSlot(|r.entries|, newest + k, n); }
    }
  }

  /** Clearing puts nothing in a slot. */
  lemma {:induction false} ClearedOnlyEmpties<T>(r: Ring<T>, k: nat, j: nat)
    requires r.entries != [] && j < |r.entries|
    ensures Cleared(r, k).entries[j] == r.entries[j] || Cleared(r, k).entries[j] == None
  {
    if k > 0 { ClearedOnlyEmpties(r, k - 1, j); }
  }

  // ---------- the map it refines ----------

  function Max(a: int, b: int): int { if a < b then b else a }

  /** The slot of each of the last `size` numbers holds what was last inserted
      under it, or nothing. */
  ghost predicate Refines<T>(r: Ring<T>, newest: int, log: map<int, T>) {
    && r.entries != [] && r.sequence == Wrap(newest)
    && (forall n :: n in log ==> n <= newest)
    && forall n :: newest - |r.entries| < n <= newest ==>
         r.entries[n % |r.entries|] == if n in log then Some((Wrap(n), log[n])) else None
  }

  lemma MovedUpSlot<T>(r: Ring<T>, newest: int, log: map<int, T>, n: int, m: int)
    requires Refines(r, newest, log) && Divides(|r.entries|) && |r.entries| <= HALF_RANGE
    requires newest - |r.entries| < n < newest + HALF_RANGE
    requires Max(newest, n) - |r.entries| < m <= Max(newest, n)
    ensures var q := MovedUp(r, Wrap(n));
            && q.sequence == Wrap(Max(newest, n))
            && q.entries[m % |r.entries|] == if m in log then Some((Wrap(m), log[m])) else None
  {
    AgreesWithinHalfRange(n, newest);
    if n > newest {
      var k := n - newest;
      if k < |r.entries| {
        ClearedSequence(r, newest, k);
        if m <= newest { KeptSlot(r, newest, k, m); } else { PassedSlot(r, newest, k, m); }
      }
    }
  }

  lemma InsertRefines<T>(r: Ring<T>, newest: int, log: map<int, T>, n: int, data: T)
    requires Refines(r, newest, log) && Divides(|r.entries|) && |r.entries| <= HALF_RANGE
    requires newest - |r.entries| < n < newest + HALF_RANGE
    ensures Refines(Inserted(r, Wrap(n), data), Max(newest, n), log[n := data])
  {
    var q, size := Inserted(r, Wrap(n), data), |r.entries|;
    MovedUpSlot(r, newest, log, n, Max(newest, n));
    WrapKeepsSlot(size, n);
    forall m | Max(newest, n) - size < m <= Max(newest, n)
      ensures q.entries[m % size] == if m in log[n := data] then Some((Wrap(m), log[n := data][m])) else None
    {
      hide MovedUp, Wrap, Refines;
      MovedUpSlot(r, newest, log, n, m);
      if m % size == n % size { OwnSlot(size, m, n); }
    }
  }

  // ---------- whole runs of inserts ----------

  datatype Insertion<T> = Insertion(n: int, data: T)

  function Newest<T>(inserts: seq<Insertion<T>>): int {
    if inserts == [] then 0 else Max(Newest(inserts[..|inserts| - 1]), inserts[|inserts| - 1].n)
  }

  function Log<T>(inserts: seq<Insertion<T>>): map<int, T> {
    if inserts == [] then map[]
    else
      var last := inserts[|inserts| - 1];
      Log(inserts[..|inserts| - 1])[last.n := last.data]
  }

  function RingAfter<T>(size: nat, inserts: seq<Insertion<T>>): (r: Ring<T>)
    requires size > 0
    ensures |r.entries| == size
  {
    if inserts == [] then Ring(Blank(size), 0)
    else
      var last := inserts[|inserts| - 1];
      Inserted(RingAfter(size, inserts[..|inserts| - 1]), Wrap(last.n), last.data)
  }

  /** No insert is `size` or more behind the newest number before it, or half the
      space or more ahead of it. */
  ghost predicate InReach<T>(size: nat, inserts: seq<Insertion<T>>) {
    forall i :: 0 <= i < |inserts| ==>
      Newest(inserts[..i]) - size < inserts[i].n < Newest(inserts[..i]) + HALF_RANGE
  }

  lemma {:induction false} RunRefines<T>(size: nat, inserts: seq<Insertion<T>>)
    requires Divides(size) && size <= HALF_RANGE && InReach(size, inserts)
    ensures Refines(RingAfter(size, inserts), Newest(inserts), Log(inserts))
  {
    if inserts != [] {
      var k := |inserts| - 1;
      var front, last := inserts[..k], inserts[k];
      forall i | 0 <= i < k
        ensures front[..i] == inserts[..i]
      {
      }
      hide Inserted, Wrap, Refines;
      RunRefines(size, front);
      InsertRefines(RingAfter(size, front), Newest(front), Log(front), last.n, last.data);
    } else {
      forall n | -(size as int) < n <= 0
        ensures RingAfter(size, inserts).entries[n % size] == None
      {
      }
    }
  }

  /** For every number among the last `size`, through any number of wraps and
      clear-all jumps: what was last inserted under it, or nothing. */
  lemma LookupIsLatestInsert<T>(size: nat, inserts: seq<Insertion<T>>, n: int)
    requires Divides(size) && size <= HALF_RANGE && InReach(size, inserts)
    requires Newest(inserts) - size < n <= Newest(inserts)
    ensures Lookup(RingAfter(size, inserts), Wrap(n)) == if n in Log(inserts) then Some(Log(inserts)[n]) else None
  {
    RunRefines(size, inserts);
    WrapKeepsSlot(size, n);
  }

  // ---------- exactly when it refines the map ----------

  /** What the theorem above says of one run and one number. */
  ghost predicate LookupIsRight<T>(size: nat, inserts: seq<Insertion<T>>, n: int)
    requires size > 0
  {
    Newest(inserts) - size < n <= Newest(inserts) ==>
      Lookup(RingAfter(size, inserts), Wrap(n)) == if n in Log(inserts) then Some(Log(inserts)[n]) else None
  }

  /** The sizes for which it holds of every run are those that divide the space. */
  lemma LookupIsRightIffDivides<T(!new)>(size: nat, data: T)
    requires 0 < size <= HALF_RANGE
    ensures Divides(size) <==>
      forall inserts: seq<Insertion<T>>, n: int :: InReach(size, inserts) ==> LookupIsRight(size, inserts, n)
  {
    if Divides(size) {
      forall inserts: seq<Insertion<T>>, n: int | InReach(size, inserts)
        ensures LookupIsRight(size, inserts, n)
      {
        if Newest(inserts) - size < n <= Newest(inserts) { LookupIsLatestInsert(size, inserts, n); }
      }
    } else {
      WrapLosesEntry(size, data);
    }
  }

  /** A run up to the wrap: the last insert takes the slot of a number that is
      still among the last `size`. */
  function UpToWrap<T>(size: nat, data: T): seq<Insertion<T>>
    requires size > 0
  {
    [Insertion(30000, data), Insertion(50000, data), Insertion(FULL_RANGE - FULL_RANGE % size, data),
     Insertion(FULL_RANGE, data)]
  }

  lemma WrapLosesEntry<T>(size: nat, data: T)
    requires 0 < size <= HALF_RANGE && !Divides(size)
    ensures var inserts, n := UpToWrap(size, data), FULL_RANGE - FULL_RANGE % size;
      InReach(size, inserts) && !LookupIsRight(size, inserts, n)
  {
    OtherSizesCollide(size);
    UpToWrapInReach(size, data);
    UpToWrapLookup(size, data);
    hide UpToWrap, RingAfter, Wrap, InReach, Newest, Log;
  }

  lemma UpToWrapInReach<T>(size: nat, data: T)
    requires 0 < size <= HALF_RANGE && !Divides(size)
    ensures var inserts, n := UpToWrap(size, data), FULL_RANGE - FULL_RANGE % size;
      InReach(size, inserts) && Newest(inserts) == FULL_RANGE && n in Log(inserts)
  {
    var a, b, n := Insertion(30000, data), Insertion(50000, data), FULL_RANGE - FULL_RANGE % size;
    var c, d := Insertion(n, data), Insertion(FULL_RANGE, data);
    RunsUp(a, b, c, d);
    hide Newest, Log;
    var all := UpToWrap(size, data);
    assert all[..3] == [a, b, c] && all[..2] == [a, b] && all[..1] == [a] && all[..0] == [];
  }

  lemma UpToWrapLookup<T>(size: nat, data: T)
    requires 0 < size <= HALF_RANGE && !Divides(size)
    ensures var n := FULL_RANGE - FULL_RANGE % size; Lookup(RingAfter(size, UpToWrap(size, data)), Wrap(n)) == None
  {
    OtherSizesCollide(size);
    var all, n := UpToWrap(size, data), FULL_RANGE - FULL_RANGE % size;
    assert n % size == 0 && all[3] == Insertion(FULL_RANGE, data);
    hide RingAfter, UpToWrap, Inserted, Wrap, Lookup, Divides;
    LastInsert(size, all);
    TakesSlotOfZero(RingAfter(size, all[..3]), n, data);
  }

  lemma RunsUp<T>(a: Insertion<T>, b: Insertion<T>, c: Insertion<T>, d: Insertion<T>)
    requires 0 <= a.n <= b.n && b.n < FULL_RANGE && c.n < FULL_RANGE == d.n
    ensures Newest([a]) == a.n && Newest([a, b]) == b.n && Newest([a, b, c]) == Max(b.n, c.n)
    ensures Newest([a, b, c, d]) == FULL_RANGE && Newest<T>([]) == 0
    ensures c.n in Log([a, b, c, d])
  {
    assert [a, b, c, d][..3] == [a, b, c] && [a, b, c][..2] == [a, b] && [a, b][..1] == [a] && [a][..0] == [];
  }

  lemma TakesSlotOfZero<T>(r: Ring<T>, n: nat, data: T)
    requires r.entries != [] && 0 < n < FULL_RANGE && n % |r.entries| == 0
    ensures Lookup(Inserted(r, Wrap(FULL_RANGE), data), Wrap(n)) == None
  {
    hide MovedUp;
  }

  /** The number among the last `size` that shares the slot of `n`. */
  function SlotMate(size: nat, newest: int, n: int): int
    requires size > 0
  {
    newest - (newest - n) % size
  }

  lemma SlotMateIs(size: nat, newest: int, n: int)
    requires size > 0
    ensures var m := SlotMate(size, newest, n);
      newest - size < m <= newest && m % size == n % size
  {
    var q := (newest - n) / size;
    assert newest - n == size * q + (newest - n) % size;
    SameSlot(size, SlotMate(size, newest, n), n, q);
  }

  /** An insert keeps the refinement if and only if it is not `size` or more
      behind the newest number. */
  lemma InsertRefinesIff<T>(r: Ring<T>, newest: int, log: map<int, T>, n: int, data: T)
    requires Refines(r, newest, log) && Divides(|r.entries|) && |r.entries| <= HALF_RANGE
    requires newest - HALF_RANGE < n < newest + HALF_RANGE
    ensures Refines(Inserted(r, Wrap(n), data), Max(newest, n), log[n := data]) <==> newest - |r.entries| < n
  {
    var size := |r.entries|;
    if newest - size < n {
      InsertRefines(r, newest, log, n, data);
    } else {
      LateTakesSlot(r, newest, n, data);
      SlotMateIs(size, newest, n);
      var m := SlotMate(size, newest, n);
      DifferentWraps(m, n);
      hide Inserted, SlotMate, Wrap;
      assert Inserted(r, Wrap(n), data).entries[m % size] == Some((Wrap(n), data));
    }
  }

  lemma DifferentWraps(m: int, n: int)
    requires 0 < m - n < FULL_RANGE
    ensures Wrap(m) != Wrap(n)
  {
  }

  lemma LateTakesSlot<T>(r: Ring<T>, newest: int, n: int, data: T)
    requires Divides(|r.entries|) && r.sequence == Wrap(newest) && newest - HALF_RANGE < n <= newest
    ensures Inserted(r, Wrap(n), data) == Ring(r.entries[n % |r.entries| := Some((Wrap(n), data))], r.sequence)
  {
    AgreesWithinHalfRange(n, newest);
    WrapKeepsSlot(|r.entries|, n);
    hide Wrap, GreaterThan, Diff;
  }

  /** What a lookup among the last `size` finds after a late insert. */
  lemma AfterLate<T>(r: Ring<T>, newest: int, log: map<int, T>, n: int, data: T, m: int)
    requires Refines(r, newest, log) && Divides(|r.entries|) && |r.entries| <= HALF_RANGE
    requires newest - HALF_RANGE < n <= newest - |r.entries| < m <= newest
    ensures Lookup(Inserted(r, Wrap(n), data), Wrap(m))
         == if m != SlotMate(|r.entries|, newest, n) && m in log then Some(log[m]) else None
  {
    var size := |r.entries|;
    LateTakesSlot(r, newest, n, data);
    WrapKeepsSlot(size, m);
    SlotMateIs(size, newest, n);
    DifferentWraps(m, n);
    hide Inserted, SlotMate, Wrap;
    var mate := SlotMate(size, newest, n);
    if m % size == n % size { OwnSlot(size, m, mate); }
  }

  /** A late one is harmless if and only if nothing is held under the number
      whose slot it takes. */
  lemma LateInsertIsHarmlessIff<T>(r: Ring<T>, newest: int, log: map<int, T>, n: int, data: T)
    requires Refines(r, newest, log) && Divides(|r.entries|) && |r.entries| <= HALF_RANGE
    requires newest - HALF_RANGE < n <= newest - |r.entries|
    ensures
      (forall m :: newest - |r.entries| < m <= newest ==>
         Lookup(Inserted(r, Wrap(n), data), Wrap(m)) == if m in log then Some(log[m]) else None)
      <==> SlotMate(|r.entries|, newest, n) !in log
  {
    SlotMateIs(|r.entries|, newest, n);
    hide Lookup, Inserted, Wrap, Refines, SlotMate;
    forall m | newest - |r.entries| < m <= newest
      ensures Lookup(Inserted(r, Wrap(n), data), Wrap(m))
           == if m != SlotMate(|r.entries|, newest, n) && m in log then Some(log[m]) else None
    {
      AfterLate(r, newest, log, n, data, m);
    }
    var mate := SlotMate(|r.entries|, newest, n);
    assert Lookup(Inserted(r, Wrap(n), data), Wrap(mate)) == None;
  }

  /** So a late insert throws a newer entry out of the slot they share. */
  lemma LateInsertEvicts<T>(size: nat, newer: T, late: T)
    requires Divides(size) && size < HALF_RANGE
    ensures var r := RingAfter(size, [Insertion(size, newer), Insertion(0, late)]);
            Lookup(r, Wrap(size)) == None && Lookup(r, Wrap(0)) == Some(late)
  {
    var one, two := [Insertion(size, newer)], [Insertion(size, newer), Insertion(0, late)];
    assert two[..1] == one && one[..0] == [];
    RunRefines(size, one);
    assert Newest(one) == size;
    var r := RingAfter(size, one);
    hide RingAfter;
    LateTakesSlot(r, size, 0, late);
    AfterLate(r, size, Log(one), 0, late, size);
    hide Inserted;
    assert RingAfter(size, two) == Inserted(r, Wrap(0), late) by { LastInsert(size, two); }
  }

  lemma LastInsert<T>(size: nat, inserts: seq<Insertion<T>>)
    requires size > 0 && inserts != []
    ensures var k := |inserts| - 1;
      RingAfter(size, inserts) == Inserted(RingAfter(size, inserts[..k]), Wrap(inserts[k].n), inserts[k].data)
  {
    hide Inserted;
  }
}
