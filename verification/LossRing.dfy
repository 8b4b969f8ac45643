/** The ring of the last 256 delivery outcomes. */
module LossRing {

  const LOSS_WINDOW_SIZE := 256

  datatype Ring = Ring(window: seq<bool>, index: nat, count: nat)

  function NewRing(): Ring { Ring(seq(LOSS_WINDOW_SIZE, _ => false), 0, 0) }

  function Recorded(r: Ring, lost: bool): (q: Ring)
    requires |r.window| == LOSS_WINDOW_SIZE
    ensures |q.window| == LOSS_WINDOW_SIZE
  {
    Ring(r.window[r.index % LOSS_WINDOW_SIZE := lost], r.index + 1,
         if r.count < LOSS_WINDOW_SIZE then r.count + 1 else r.count)
  }

  function CountLost(outcomes: seq<bool>): (n: nat)
    ensures n <= |outcomes|
  {
    if outcomes == [] then 0
    else CountLost(outcomes[..|outcomes| - 1]) + if outcomes[|outcomes| - 1] then 1 else 0
  }

  function Share(outcomes: seq<bool>): real {
    if outcomes == [] then 0.0 else CountLost(outcomes) as real / |outcomes| as real
  }

  function RingAfter(outcomes: seq<bool>): (r: Ring)
    ensures |r.window| == LOSS_WINDOW_SIZE
  {
    if outcomes == [] then NewRing()
    else Recorded(RingAfter(outcomes[..|outcomes| - 1]), outcomes[|outcomes| - 1])
  }

  /** The share of lost outcomes that a ring reports. */
  function Reported(r: Ring): real
    requires |r.window| == LOSS_WINDOW_SIZE && r.count <= LOSS_WINDOW_SIZE
  {
    Share(r.window[..r.count])
  }

  function Recent(outcomes: seq<bool>): seq<bool> {
    if |outcomes| <= LOSS_WINDOW_SIZE then outcomes else outcomes[|outcomes| - LOSS_WINDOW_SIZE..]
  }

  /** Each of the last 256 outcomes stands in its own slot. */
  lemma {:induction false} RingHolds(outcomes: seq<bool>)
    ensures var r, n := RingAfter(outcomes), |outcomes|;
      && r.index == n && r.count == (if n < LOSS_WINDOW_SIZE then n else LOSS_WINDOW_SIZE)
      && forall k :: 0 <= k < n && n - LOSS_WINDOW_SIZE <= k ==> r.window[k % LOSS_WINDOW_SIZE] == outcomes[k]
  {
    if outcomes != [] {
      var front, n := outcomes[..|outcomes| - 1], |outcomes| - 1;
      RingHolds(front);
      var before, after := RingAfter(front), RingAfter(outcomes);
      assert after == Recorded(before, outcomes[n]);
      hide RingAfter;
      forall k | 0 <= k < n + 1 && n + 1 - LOSS_WINDOW_SIZE <= k
        ensures after.window[k % LOSS_WINDOW_SIZE] == outcomes[k]
      {
        OwnSlot(k, n);
        if k < n { assert before.window[k % LOSS_WINDOW_SIZE] == front[k]; }
      }
    }
  }

  lemma OwnSlot(k: nat, n: nat)
    requires k <= n < k + LOSS_WINDOW_SIZE
    ensures k % LOSS_WINDOW_SIZE == n % LOSS_WINDOW_SIZE <==> k == n
  {
  }

  lemma {:induction false} CountSplit(a: seq<bool>, b: seq<bool>)
    ensures CountLost(a + b) == CountLost(a) + CountLost(b)
  {
    if b == [] {
      assert a + b == a;
    } else {
      assert (a + b)[..|a + b| - 1] == a + b[..|b| - 1];
      CountSplit(a, b[..|b| - 1]);
    }
  }

  /** A full ring is the last 256 outcomes, cut somewhere and swapped. */
  lemma FullRingIsRotation(outcomes: seq<bool>)
    requires |outcomes| >= LOSS_WINDOW_SIZE
    ensures var cut := |outcomes| % LOSS_WINDOW_SIZE;
      var w := RingAfter(outcomes).window;
      Recent(outcomes) == w[cut..] + w[..cut]
  {
    RingHolds(outcomes);
    hide RingAfter;
    var n, cut, w := |outcomes|, |outcomes| % LOSS_WINDOW_SIZE, RingAfter(outcomes).window;
    var recent, swapped := Recent(outcomes), w[cut..] + w[..cut];
    forall i | 0 <= i < LOSS_WINDOW_SIZE
      ensures recent[i] == swapped[i]
    {
      var k := n - LOSS_WINDOW_SIZE + i;
      assert w[k % LOSS_WINDOW_SIZE] == outcomes[k];
      SlotOf(n, i);
    }
  }

  lemma SlotOf(n: nat, i: nat)
    requires i < LOSS_WINDOW_SIZE <= n
    ensures var cut := n % LOSS_WINDOW_SIZE;
      (n - LOSS_WINDOW_SIZE + i) % LOSS_WINDOW_SIZE
        == if i < LOSS_WINDOW_SIZE - cut then cut + i else i - (LOSS_WINDOW_SIZE - cut)
  {
  }

  /** What the ring reports is the lost share of the most recent outcomes, at
      most 256 of them. */
  lemma ReportsRecentShare(outcomes: seq<bool>)
    ensures RingAfter(outcomes).count <= LOSS_WINDOW_SIZE
    ensures Reported(RingAfter(outcomes)) == Share(Recent(outcomes))
  {
    RingHolds(outcomes);
    if |outcomes| < LOSS_WINDOW_SIZE {
      PartRingIsAll(outcomes);
    } else {
      FullRingCounts(outcomes);
      assert RingAfter(outcomes).window[..LOSS_WINDOW_SIZE] == RingAfter(outcomes).window;
      hide RingAfter, CountLost;
      SameShare(RingAfter(outcomes).window, Recent(outcomes));
    }
  }

  lemma PartRingIsAll(outcomes: seq<bool>)
    requires |outcomes| < LOSS_WINDOW_SIZE
    ensures RingAfter(outcomes).count == |outcomes| && RingAfter(outcomes).window[..|outcomes|] == outcomes
  {
    RingHolds(outcomes);
    hide RingAfter;
    var part := RingAfter(outcomes).window[..|outcomes|];
    forall k | 0 <= k < |outcomes|
      ensures part[k] == outcomes[k]
    {
      assert RingAfter(outcomes).window[k % LOSS_WINDOW_SIZE] == outcomes[k];
    }
  }

  lemma FullRingCounts(outcomes: seq<bool>)
    requires |outcomes| >= LOSS_WINDOW_SIZE
    ensures CountLost(RingAfter(outcomes).window) == CountLost(Recent(outcomes))
  {
    FullRingIsRotation(outcomes);
    hide RingAfter, CountLost;
    var cut, w := |outcomes| % LOSS_WINDOW_SIZE, RingAfter(outcomes).window;
    assert w[..cut] + w[cut..] == w;
    CountSplit(w[cut..], w[..cut]);
    CountSplit(w[..cut], w[cut..]);
  }

  lemma SameShare(a: seq<bool>, b: seq<bool>)
    requires |a| == |b| && CountLost(a) == CountLost(b)
    ensures Share(a) == Share(b)
  {
    hide CountLost;
  }

  lemma {:induction false} NoneLost(outcomes: seq<bool>)
    requires forall i :: 0 <= i < |outcomes| ==> !outcomes[i]
    ensures CountLost(outcomes) == 0 && Share(outcomes) == 0.0
  {
    if outcomes != [] { NoneLost(outcomes[..|outcomes| - 1]); }
  }
}
