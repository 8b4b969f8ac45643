/** What waste does to the assembler once it alone has used up the limit. */
module Starvation {
  import opened Wrappers
  import opened Fragments
  import opened Reassembly
  import opened ReassemblyRuns

  /** The waste alone has reached the limit: every fragment now evicts a buffer. */
  ghost predicate Exhausted(s: Assembly, maxSize: nat) { s.current >= Held(s.buffers) + maxSize }

  function Others(c: Cut, s: Assembly): set<u32> { s.buffers.Keys - {c.id} }

  /** How many of the message's own fragments are held. */
  function Got(c: Cut, s: Assembly): nat { if c.id in s.buffers then s.buffers[c.id].receivedCount else 0 }

  ghost predicate HoldsParts(c: Cut, s: Assembly)
    requires IsCut(c)
  {
    HoldsOnlyParts(c, s) && (c.id in s.buffers ==> s.buffers[c.id].receivedCount >= 1)
  }

  /** With what it has and the others to evict first, the message falls short. */
  ghost predicate FallsShort(c: Cut, s: Assembly, maxSize: nat)
    requires IsCut(c)
  {
    Exhausted(s, maxSize) && HoldsParts(c, s) && Got(c, s) + |Others(c, s)| < Count(c)
  }

  lemma ShortMeans(c: Cut, s: Assembly, maxSize: nat)
    requires IsCut(c)
    ensures FallsShort(c, s, maxSize)
            <==> Exhausted(s, maxSize) && HoldsParts(c, s) && Got(c, s) + |Others(c, s)| < Count(c)
    ensures HoldsParts(c, s) ==> HoldsOnlyParts(c, s)
  {
  }

  // ---------- too few others: never ----------

  lemma CleaningFallsShort(timeout: nat, now: Instant, c: Cut, s: Assembly, maxSize: nat)
    requires IsCut(c) && FallsShort(c, s, maxSize)
    ensures FallsShort(c, Cleaned(timeout, now, s), maxSize)
  {
    CleaningKeepsExcess(timeout, now, s, s.current - Held(s.buffers));
    var t := Cleaned(timeout, now, s);
    hide Held, Faithful;
    SubsetSize(Others(c, t), Others(c, s));
  }

  lemma {:induction false} SubsetSize<T>(a: set<T>, b: set<T>)
    requires a <= b
    ensures |a| <= |b|
  {
    if a != {} {
      var x :| x in a;
      SubsetSize(a - {x}, b - {x});
    }
  }

  lemma PartsWithout(c: Cut, s: Assembly, room: Assembly, k: u32)
    requires IsCut(c) && HoldsParts(c, s) && k in s.buffers && room.buffers == s.buffers - {k}
    ensures HoldsParts(c, room) && Others(c, room) == Others(c, s) - {k}
    ensures if k == c.id then Got(c, room) == 0 < Got(c, s) else Got(c, room) == Got(c, s) && k in Others(c, s)
  {
    hide Faithful;
  }

  /** Making room costs one: another buffer, or all the message has. */
  lemma RoomCostsOne(c: Cut, s: Assembly, maxSize: nat, room: Assembly)
    requires IsCut(c) && FallsShort(c, s, maxSize) && Count(c) >= 2 && ExpiresOldest(s, room)
    ensures HoldsParts(c, room) && Got(c, room) + |Others(c, room)| + 1 < Count(c)
  {
    if s.buffers == map[] {
      hide Held;
      assert Others(c, room) == {};
    } else {
      var k :| IsOldest(s.buffers, k) && room == Dropped(s, k);
      assert k in s.buffers && room.buffers == s.buffers - {k};
      ShortMeans(c, s, maxSize);
      hide *;
      PartsWithout(c, s, room, k);
    }
  }

  lemma {:induction false} PresentCounts(f: seq<Option<Bytes>>, i: nat)
    requires i < |f| && f[i].Some?
    ensures CountPresent(f) >= 1
  {
    if i < |f| - 1 { PresentCounts(f[..|f| - 1], i); }
  }

  /** Storing a fragment adds at most one to what the message has. */
  lemma StoringAddsOne(c: Cut, room: Assembly, i: nat, now: Instant)
    requires IsCut(c) && i < Count(c) && HoldsParts(c, room) && Got(c, room) + 1 < Count(c)
    ensures
      var (s', r) := Stored(room, FragmentHeader(c.id, i, Count(c)), PartOf(c, i), now);
      r == None && HoldsParts(c, s') && Got(c, s') <= Got(c, room) + 1 && Others(c, s') == Others(c, room)
  {
    StoringPart(c, room, i, now);
    NewIsFaithful(c, now);
    var b := BufferFor(room, FragmentHeader(c.id, i, Count(c)), now);
    if !Takes(b, i) { PresentCounts(b.fragments, i); }
    hide PartOf, CountPresent, BytesPresent;
  }

  /** With the waste at the limit, each of the message's fragments expires the
      oldest buffer, is stored in what that leaves, and finds the waste as high. */
  lemma FullStep(timeout: nat, maxSize: nat, c: Cut, s: Assembly, e: Event, room: Assembly, s': Assembly,
                 r: Option<Bytes>)
    requires IsCut(c) && HoldsOnlyParts(c, s) && Exhausted(s, maxSize) && Carries(c.id, e) && Genuine(c, e)
    requires Processes(timeout, maxSize, s, e.data, e.now, room, s', r)
    ensures ExpiresOldest(Cleaned(timeout, e.now, s), room) && IndexIn(e) < Count(c)
    ensures (s', r) == Stored(room, FragmentHeader(c.id, IndexIn(e), Count(c)), PartOf(c, IndexIn(e)), e.now)
    ensures Exhausted(s', maxSize)
  {
    StaysExhausted(timeout, maxSize, s, e, room, s', r);
    OneFragment(c, e);
    CleaningExhausts(timeout, e.now, s, maxSize);
    hide Held, Stored, ExpiresOldest, DeserializeHeader;
    assert !Mismatch(Cleaned(timeout, e.now, s), FragmentHeader(c.id, IndexIn(e), Count(c))) by { hide Genuine; }
    hide Cleaned, Genuine, HoldsOnlyParts;
  }

  lemma CleaningExhausts(timeout: nat, now: Instant, s: Assembly, maxSize: nat)
    requires Exhausted(s, maxSize)
    ensures Exhausted(Cleaned(timeout, now, s), maxSize)
  {
    hide Cleaned;
    CleaningKeepsExcess(timeout, now, s, s.current - Held(s.buffers));
  }

  lemma StaysExhausted(timeout: nat, maxSize: nat, s: Assembly, e: Event, room: Assembly, s': Assembly,
                       r: Option<Bytes>)
    requires Exhausted(s, maxSize) && Processes(timeout, maxSize, s, e.data, e.now, room, s', r)
    ensures Exhausted(s', maxSize)
  {
    hide Processes, Wasted;
    StepExcess(timeout, maxSize, s, e.data, e.now, room, s', r, s.current - Held(s.buffers));
  }

  lemma StepFallsShort(timeout: nat, maxSize: nat, c: Cut, s: Assembly, e: Event, room: Assembly, s': Assembly,
                       r: Option<Bytes>)
    requires IsCut(c) && Count(c) >= 2 && FallsShort(c, s, maxSize) && Carries(c.id, e) && Genuine(c, e)
    requires Processes(timeout, maxSize, s, e.data, e.now, room, s', r)
    ensures r == None && FallsShort(c, s', maxSize)
  {
    var i := IndexIn(e);
    hide *;
    ShortMeans(c, s, maxSize);
    FullStep(timeout, maxSize, c, s, e, room, s', r);
    CleaningFallsShort(timeout, e.now, c, s, maxSize);
    RoomCostsOne(c, Cleaned(timeout, e.now, s), maxSize, room);
    StoringAddsOne(c, room, i, e.now);
    ShortMeans(c, s', maxSize);
  }

  /** A stretch of calls that carry nothing but the message's fragments. */
  ghost predicate OnlyThis(timeout: nat, maxSize: nat, c: Cut, t: Trace, events: seq<Event>)
    requires IsCut(c)
  {
    && |t.states| == |events| + 1 && |t.rooms| == |t.outs| == |events|
    && forall i :: 0 <= i < |events| ==>
         && Carries(c.id, events[i]) && Genuine(c, events[i])
         && Processes(timeout, maxSize, t.states[i], events[i].data, events[i].now, t.rooms[i], t.states[i + 1],
             t.outs[i])
  }

  lemma {:induction false} KeepsFallingShort(timeout: nat, maxSize: nat, c: Cut, t: Trace, events: seq<Event>, k: nat)
    requires IsCut(c) && Count(c) >= 2 && OnlyThis(timeout, maxSize, c, t, events)
    requires FallsShort(c, t.states[0], maxSize) && k <= |events|
    ensures FallsShort(c, t.states[k], maxSize)
    decreases k
  {
    hide Processes, FallsShort, Carries, Genuine;
    if k > 0 {
      KeepsFallingShort(timeout, maxSize, c, t, events, k - 1);
      StepFallsShort(timeout, maxSize, c, t.states[k - 1], events[k - 1], t.rooms[k - 1], t.states[k], t.outs[k - 1]);
    }
  }

  /** With the waste at the limit, a message that falls short never gets through,
      whatever the order, the repetitions and the times of its fragments: each
      evicts another buffer while there is one, and then the fragment before. */
  lemma WasteStarves(timeout: nat, maxSize: nat, c: Cut, t: Trace, events: seq<Event>, k: nat)
    requires IsCut(c) && Count(c) >= 2 && OnlyThis(timeout, maxSize, c, t, events)
    requires FallsShort(c, t.states[0], maxSize) && k < |events|
    ensures t.outs[k] == None
  {
    hide Processes, FallsShort, Carries, Genuine;
    KeepsFallingShort(timeout, maxSize, c, t, events, k);
    StepFallsShort(timeout, maxSize, c, t.states[k], events[k], t.rooms[k], t.states[k + 1], t.outs[k]);
  }

  // ---------- enough others: always ----------

  /** Of the message exactly these fragments are held, and every other buffer is
      older than any of them. */
  ghost predicate Waits(c: Cut, s: Assembly, got: set<nat>, first: Instant, start: Instant, maxSize: nat)
    requires IsCut(c)
  {
    && Exhausted(s, maxSize) && Tracks(c, s, got, first, s.current)
    && forall k :: k in s.buffers ==> (s.buffers[k].createdAt < start <==> k != c.id)
  }

  lemma WaitsMeans(c: Cut, s: Assembly, got: set<nat>, first: Instant, start: Instant, maxSize: nat)
    requires IsCut(c) && Waits(c, s, got, first, start, maxSize)
    ensures Exhausted(s, maxSize) && Tracks(c, s, got, first, s.current) && HoldsOnlyParts(c, s)
    ensures forall k :: k in s.buffers ==> s.buffers[k].createdAt >= first
  {
    hide Faithful, Present, Exhausted;
  }

  /** While there is another buffer, the oldest is another. */
  lemma OtherGoes(c: Cut, s: Assembly, got: set<nat>, first: Instant, start: Instant, maxSize: nat, room: Assembly)
    requires IsCut(c) && Waits(c, s, got, first, start, maxSize) && Others(c, s) != {} && ExpiresOldest(s, room)
    ensures Tracks(c, room, got, first, room.current) && |Others(c, room)| == |Others(c, s)| - 1
    ensures forall k :: k in room.buffers ==> (room.buffers[k].createdAt < start <==> k != c.id)
  {
    var x :| x in Others(c, s);
    assert x in s.buffers && x != c.id;
    assert s.buffers != map[];
    var k :| IsOldest(s.buffers, k) && room == Dropped(s, k);
    assert k != c.id;
    hide Faithful, Present, Exhausted, IsOldest;
    assert Others(c, room) == Others(c, s) - {k};
  }

  /** A fragment that is not held yet costs one other buffer and is kept. */
  lemma StepWaits(timeout: nat, maxSize: nat, c: Cut, s: Assembly, e: Event, room: Assembly, s': Assembly,
                  r: Option<Bytes>, got: set<nat>, first: Instant, start: Instant)
    requires IsCut(c) && Waits(c, s, got, first, start, maxSize) && Others(c, s) != {}
    requires Carries(c.id, e) && Genuine(c, e) && first <= start <= e.now < first + timeout
    requires Processes(timeout, maxSize, s, e.data, e.now, room, s', r)
    ensures var all := got + {IndexIn(e) as nat};
      && r == (if all == AllParts(c) then Some(c.data) else None)
      && (all != AllParts(c) ==> Waits(c, s', all, first, start, maxSize) && |Others(c, s')| == |Others(c, s)| - 1)
  {
    var i := IndexIn(e);
    hide *;
    WaitsMeans(c, s, got, first, start, maxSize);
    FullStep(timeout, maxSize, c, s, e, room, s', r);
    NothingExpires(timeout, e.now, s, first);
    OtherGoes(c, s, got, first, start, maxSize, room);
    StoringWaits(c, room, got, first, start, i, e.now, maxSize);
  }

  lemma StoringWaits(c: Cut, room: Assembly, got: set<nat>, first: Instant, start: Instant, i: nat, now: Instant,
                     maxSize: nat)
    requires IsCut(c) && i < Count(c) && Tracks(c, room, got, first, room.current) && first <= start <= now
    requires forall k :: k in room.buffers ==> (room.buffers[k].createdAt < start <==> k != c.id)
    ensures
      var (s', r) := Stored(room, FragmentHeader(c.id, i, Count(c)), PartOf(c, i), now);
      var all := got + {i};
      && r == (if all == AllParts(c) then Some(c.data) else None)
      && (all != AllParts(c) && Exhausted(s', maxSize) ==>
          Waits(c, s', all, first, start, maxSize) && Others(c, s') == Others(c, room))
  {
    StoringTracks(c, room, got, first, room.current, i, now);
    hide Faithful, Present, Exhausted, AllParts, PartOf;
  }

  /** Each of the message's fragments, once, in any order. */
  ghost predicate EachOnce(c: Cut, events: seq<Event>)
    requires IsCut(c)
  {
    && |events| == Count(c)
    && (forall i :: 0 <= i < |events| ==> Carries(c.id, events[i]) && Genuine(c, events[i]))
    && forall i, j :: 0 <= i < j < |events| ==> IndexIn(events[i]) != IndexIn(events[j])
  }

  function Came(events: seq<Event>, k: nat): set<nat>
    requires k <= |events| && forall i :: 0 <= i < |events| ==> DeserializeHeader(events[i].data).Some?
  {
    if k == 0 then {} else Came(events, k - 1) + {IndexIn(events[k - 1]) as nat}
  }

  lemma {:induction false} CameIs(c: Cut, events: seq<Event>, k: nat)
    requires IsCut(c) && EachOnce(c, events) && k <= |events|
    ensures |Came(events, k)| == k && Came(events, k) <= AllParts(c)
    ensures forall x :: x in Came(events, k) ==> exists j :: 0 <= j < k && IndexIn(events[j]) == x
  {
    if k > 0 {
      CameIs(c, events, k - 1);
      InParts(c, events[k - 1]);
      var before, i := Came(events, k - 1), IndexIn(events[k - 1]) as nat;
      hide AllParts, Genuine, Carries, IndexIn;
      assert i !in before;
      forall x | x in before + {i} ensures exists j :: 0 <= j < k && IndexIn(events[j]) == x {
        if x == i {
          assert IndexIn(events[k - 1]) == x;
        } else {
          var j :| 0 <= j < k - 1 && IndexIn(events[j]) == x;
        }
      }
    }
  }

  lemma InParts(c: Cut, e: Event)
    requires IsCut(c) && Carries(c.id, e) && Genuine(c, e)
    ensures IndexIn(e) as nat in AllParts(c)
  {
  }

  lemma {:induction false} BelowSize(n: nat)
    ensures |Below(n)| == n
  {
    if n > 0 {
      BelowSize(n - 1);
      assert Below(n) == Below(n - 1) + {n - 1};
    }
  }

  lemma {:induction false} SameSize<T>(a: set<T>, b: set<T>)
    requires a <= b && |a| == |b|
    ensures a == b
  {
    if a != {} {
      var x :| x in a;
      SameSize(a - {x}, b - {x});
    }
  }

  /** All have come with the last one, and not before. */
  lemma AllCome(c: Cut, events: seq<Event>, k: nat)
    requires IsCut(c) && EachOnce(c, events) && k <= |events|
    ensures Came(events, k) == AllParts(c) <==> k == |events|
  {
    CameIs(c, events, k);
    BelowSize(Count(c));
    if k == |events| { SameSize(Came(events, k), AllParts(c)); }
  }

  /** One message sent alone, at a time when nothing expires, into a state that
      holds only older buffers. */
  ghost predicate SentAlone(timeout: nat, maxSize: nat, c: Cut, t: Trace, events: seq<Event>, first: Instant,
                            start: Instant)
    requires IsCut(c)
  {
    && OnlyThis(timeout, maxSize, c, t, events) && EachOnce(c, events) && first <= start
    && (forall i :: 0 <= i < |events| ==> start <= events[i].now < first + timeout)
    && c.id !in t.states[0].buffers
    && forall k :: k in t.states[0].buffers ==> first <= t.states[0].buffers[k].createdAt < start
  }

  lemma {:induction false} KeepsWaiting(timeout: nat, maxSize: nat, c: Cut, t: Trace, events: seq<Event>,
                                        first: Instant, start: Instant, k: nat)
    requires IsCut(c) && SentAlone(timeout, maxSize, c, t, events, first, start)
    requires Exhausted(t.states[0], maxSize) && |t.states[0].buffers| >= Count(c) > k
    ensures Waits(c, t.states[k], Came(events, k), first, start, maxSize)
    ensures |Others(c, t.states[k])| >= Count(c) - k
    decreases k
  {
    if k == 0 {
      assert Others(c, t.states[0]) == t.states[0].buffers.Keys;
    } else {
      hide Processes, Carries, Genuine, Waits, Exhausted, AllParts;
      KeepsWaiting(timeout, maxSize, c, t, events, first, start, k - 1);
      AllCome(c, events, k);
      StepWaits(timeout, maxSize, c, t.states[k - 1], events[k - 1], t.rooms[k - 1], t.states[k], t.outs[k - 1],
                Came(events, k - 1), first, start);
    }
  }

  /** With the waste at the limit, a message of two or more fragments sent alone
      gets through exactly when as many other buffers are there to be evicted as
      it has fragments. */
  lemma CompletesIffOthersSuffice(timeout: nat, maxSize: nat, c: Cut, t: Trace, events: seq<Event>, first: Instant,
                                  start: Instant)
    requires IsCut(c) && Count(c) >= 2 && SentAlone(timeout, maxSize, c, t, events, first, start)
    requires Exhausted(t.states[0], maxSize)
    ensures t.outs[Count(c) - 1] == Some(c.data) <==> |t.states[0].buffers| >= Count(c)
  {
    var k := Count(c) - 1;
    hide Processes, Carries, Genuine, Exhausted, AllParts;
    if |t.states[0].buffers| >= Count(c) {
      KeepsWaiting(timeout, maxSize, c, t, events, first, start, k);
      AllCome(c, events, k + 1);
      hide Waits;
      StepWaits(timeout, maxSize, c, t.states[k], events[k], t.rooms[k], t.states[k + 1], t.outs[k],
                Came(events, k), first, start);
    } else {
      assert Others(c, t.states[0]) == t.states[0].buffers.Keys;
      WasteStarves(timeout, maxSize, c, t, events, k);
    }
  }

  // ---------- a run that gets there ----------

  /** The first of two fragments, with `n` bytes in it. */
  function Opening(id: u32, n: nat, now: Instant): Event {
    Event(SerializeHeader(FragmentHeader(id, 0, 2)) + seq(n, _ => 0), now)
  }

  function Opened(n: nat, now: Instant): Partial { Partial([Some(seq(n, _ => 0)), None], 2, 1, now, n) }

  lemma OpensNew(room: Assembly, id: u32, n: nat, now: Instant)
    requires id !in room.buffers
    ensures Stored(room, FragmentHeader(id, 0, 2), seq(n, _ => 0), now)
            == (Assembly(room.buffers[id := Opened(n, now)], room.current + n), None)
  {
    var b := NewBuffer(2, now);
    assert Inserted(b, 0, seq(n, _ => 0)).fragments == Opened(n, now).fragments;
  }

  lemma OpensAgain(room: Assembly, id: u32, n: nat, since: Instant, now: Instant)
    requires id in room.buffers && room.buffers[id] == Opened(n, since)
    ensures Stored(room, FragmentHeader(id, 0, 2), seq(n, _ => 0), now)
        == (Assembly(room.buffers, room.current + n), None)
  {
    assert room.buffers[id := Opened(n, since)] == room.buffers;
  }

  /** One call with an opening fragment, while nothing expires. */
  lemma Opens(timeout: nat, maxSize: nat, s: Assembly, id: u32, n: nat, now: Instant, room: Assembly, s': Assembly)
    requires 0 <= now < timeout && forall k :: k in s.buffers ==> s.buffers[k].createdAt >= 0
    requires id in s.buffers ==> s.buffers[id].fragmentCount == 2
    requires MakesRoom(maxSize, n, s, room)
    requires Stored(room, FragmentHeader(id, 0, 2), seq(n, _ => 0), now) == (s', None)
    ensures Processes(timeout, maxSize, s, Opening(id, n, now).data, now, room, s', None)
  {
    NothingExpires(timeout, now, s, 0);
    HeaderRoundTrip(FragmentHeader(id, 0, 2), seq(n, _ => 0));
    hide Cleaned, MakesRoom, Stored, SerializeHeader, DeserializeHeader;
  }

  function Flood(maxSize: nat): seq<Event> {
    [Opening(1, 1, 0), Opening(2, 1, 1), Opening(3, maxSize, 2), Opening(3, maxSize, 3)]
  }

  function Flooded(maxSize: nat): Assembly { Assembly(map[3 := Opened(maxSize, 2)], 2 * maxSize) }

  function FloodTrace(maxSize: nat): Trace {
    var a, b, x := Opened(1, 0), Opened(1, 1), Opened(maxSize, 2);
    var s0, s1, s2 := Assembly(map[], 0), Assembly(map[1 := a], 1), Assembly(map[1 := a, 2 := b], 2);
    Trace([s0, s1, s2, Assembly(map[2 := b, 3 := x], 1 + maxSize), Flooded(maxSize)],
          [s0, s1, Assembly(map[2 := b], 1), Assembly(map[3 := x], maxSize)], [None, None, None, None])
  }

  lemma DropsOldest(s: Assembly, k: u32, room: Assembly)
    requires IsOldest(s.buffers, k) && room.buffers == s.buffers - {k}
        && s.current == room.current + s.buffers[k].totalSize
    ensures ExpiresOldest(s, room)
  {
    assert room == Dropped(s, k);
  }

  lemma FloodRooms(maxSize: nat)
    requires maxSize >= 2
    ensures var t := FloodTrace(maxSize);
      && MakesRoom(maxSize, 1, t.states[0], t.rooms[0]) && MakesRoom(maxSize, 1, t.states[1], t.rooms[1])
      && MakesRoom(maxSize, maxSize, t.states[2], t.rooms[2]) && MakesRoom(maxSize, maxSize, t.states[3], t.rooms[3])
  {
    var t := FloodTrace(maxSize);
    DropsOldest(t.states[2], 1, t.rooms[2]);
    DropsOldest(t.states[3], 2, t.rooms[3]);
    hide ExpiresOldest;
  }

  lemma FloodStored(maxSize: nat)
    ensures var t := FloodTrace(maxSize);
      && Stored(t.rooms[0], FragmentHeader(1, 0, 2), seq(1, _ => 0), 0) == (t.states[1], None)
      && Stored(t.rooms[1], FragmentHeader(2, 0, 2), seq(1, _ => 0), 1) == (t.states[2], None)
      && Stored(t.rooms[2], FragmentHeader(3, 0, 2), seq(maxSize, _ => 0), 2) == (t.states[3], None)
      && Stored(t.rooms[3], FragmentHeader(3, 0, 2), seq(maxSize, _ => 0), 3) == (t.states[4], None)
  {
    var t := FloodTrace(maxSize);
    OpensNew(t.rooms[0], 1, 1, 0);
    OpensNew(t.rooms[1], 2, 1, 1);
    OpensNew(t.rooms[2], 3, maxSize, 2);
    OpensAgain(t.rooms[3], 3, maxSize, 2, 3);
    hide Stored, Opened;
  }

  /** A fragment as long as the limit, sent twice, leaves that much waste. */
  lemma FloodRuns(timeout: nat, maxSize: nat)
    requires timeout > 3 && maxSize >= 2
    ensures IsRun(timeout, maxSize, FloodTrace(maxSize), Flood(maxSize))
  {
    var t := FloodTrace(maxSize);
    FloodRooms(maxSize);
    FloodStored(maxSize);
    hide Stored, MakesRoom, Processes, Opening;
    Opens(timeout, maxSize, t.states[0], 1, 1, 0, t.rooms[0], t.states[1]);
    Opens(timeout, maxSize, t.states[1], 2, 1, 1, t.rooms[1], t.states[2]);
    Opens(timeout, maxSize, t.states[2], 3, maxSize, 2, t.rooms[2], t.states[3]);
    Opens(timeout, maxSize, t.states[3], 3, maxSize, 3, t.rooms[3], t.states[4]);
  }

  lemma WasteIsReached(timeout: nat, maxSize: nat, c: Cut)
    requires timeout > 3 && maxSize >= 2 && IsCut(c) && Count(c) >= 2 && c.id != 3
    ensures IsRun(timeout, maxSize, FloodTrace(maxSize), Flood(maxSize))
    ensures FallsShort(c, FloodTrace(maxSize).states[4], maxSize)
  {
    FloodRuns(timeout, maxSize);
    HeldWithout(Flooded(maxSize).buffers, 3);
    assert Flooded(maxSize).buffers - {3} == map[];
    assert Others(c, Flooded(maxSize)) == {3};
  }
}
