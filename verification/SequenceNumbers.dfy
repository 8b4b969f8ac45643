/** Circular comparison of 16-bit sequence numbers, set against the unbounded
    numbers they stand for. */
module SequenceNumbers {
  import opened Wrappers

  const HALF_RANGE := 32768
  const FULL_RANGE := 65536

  /** The 16-bit number that stands for the unbounded number `n`. */
  function Wrap(n: int): u16 { n % FULL_RANGE }

  function WrappingAdd(s: u16, k: nat): u16 { (s + k) % FULL_RANGE }

  function WrappingSub(s: u16, k: nat): u16 { (s - k) % FULL_RANGE }

  lemma WrapNext(n: int)
    ensures WrappingAdd(Wrap(n), 1) == Wrap(n + 1)
  {
  }

  predicate GreaterThan(s1: u16, s2: u16) {
    || (s1 > s2 && s1 - s2 <= HALF_RANGE)
    || (s1 < s2 && s2 - s1 > HALF_RANGE)
  }

  function Diff(s1: u16, s2: u16): int {
    var diff := s1 - s2;
    if diff > HALF_RANGE then diff - FULL_RANGE
    else if diff < -HALF_RANGE then diff + FULL_RANGE
    else diff
  }

  /** Within half the space the circular operations agree with the integers. */
  lemma AgreesWithinHalfRange(a: int, b: int)
    requires -HALF_RANGE < a - b < HALF_RANGE
    ensures GreaterThan(Wrap(a), Wrap(b)) <==> a > b
    ensures Diff(Wrap(a), Wrap(b)) == a - b
    ensures Wrap(a) == Wrap(b) <==> a == b
  {
  }

  /** The half-range bound above cannot be relaxed: whatever the two numbers
      are, the comparison looks only at their distance around the circle, and
      at exactly half of it the numerically larger residue wins. */
  lemma GreaterThanByDistance(a: int, b: int)
    ensures var d := (a - b) % FULL_RANGE;
            GreaterThan(Wrap(a), Wrap(b)) <==>
              0 < d < HALF_RANGE || (d == HALF_RANGE && Wrap(a) > Wrap(b))
  {
  }

  /** Less than half the space apart, or exactly half with the residues the right
      way round. */
  predicate Unambiguous(a: int, b: int) {
    || -HALF_RANGE < a - b < HALF_RANGE
    || (a - b == HALF_RANGE && Wrap(a) > Wrap(b))
    || (a - b == -HALF_RANGE && Wrap(a) < Wrap(b))
  }

  /** Of two numbers less than the whole space apart, exactly those are compared
      rightly. */
  lemma ComparesRightlyIff(a: int, b: int)
    requires -FULL_RANGE < a - b < FULL_RANGE
    ensures (GreaterThan(Wrap(a), Wrap(b)) <==> a > b) <==> Unambiguous(a, b)
  {
  }

  /** Any two different numbers are ordered one way, and only one way. */
  lemma GreaterThanIsTotal(s1: u16, s2: u16)
    ensures s1 != s2 ==> (GreaterThan(s1, s2) <==> !GreaterThan(s2, s1))
    ensures !GreaterThan(s1, s1)
  {
  }

  /** It is no order all the same: three numbers a third of the circle apart
      are each greater than the next. */
  lemma GreaterThanIsCyclic()
    ensures GreaterThan(20000, 0) && GreaterThan(40000, 20000) && GreaterThan(0, 40000)
  {
  }
}
