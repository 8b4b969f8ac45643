/** What the assembler gives back over whole runs: only whole messages, every
    message whose fragments all come, and what its size counter really counts. */
module ReassemblyRuns {
  import opened Wrappers
  import opened Fragments
  import opened Reassembly

  datatype Event = Event(data: Bytes, now: Instant)

  /** The states between calls, what each fragment found, and what came out. */
  datatype Trace = Trace(states: seq<Assembly>, rooms: seq<Assembly>, outs: seq<Option<Bytes>>)

  ghost predicate IsRun(timeout: nat, maxSize: nat, t: Trace, events: seq<Event>) {
    && |t.states| == |events| + 1 && |t.rooms| == |t.outs| == |events|
    && t.states[0] == Assembly(map[], 0)
    && forall i :: 0 <= i < |events| ==>
         Processes(timeout, maxSize, t.states[i], events[i].data, events[i].now, t.rooms[i], t.states[i + 1], t.outs[i])
  }

  function Prefix(t: Trace, k: nat): Trace
    requires k < |t.states| && k <= |t.rooms| && k <= |t.outs|
  {
    Trace(t.states[..k + 1], t.rooms[..k], t.outs[..k])
  }

  /** A message cut into fragments under a number of its own. */
  datatype Cut = Cut(id: u32, data: Bytes, size: nat)

  predicate IsCut(c: Cut) { c.data != [] && c.size > 0 && DivCeil(|c.data|, c.size) <= MAX_FRAGMENT_COUNT }

  function Count(c: Cut): (n: nat)
    requires IsCut(c)
    ensures 1 <= n <= MAX_FRAGMENT_COUNT
  {
    DivisionBounds(|c.data| + c.size - 1, c.size);
    DivCeil(|c.data|, c.size)
  }

  function PartOf(c: Cut, i: nat): Bytes
    requires IsCut(c) && i < Count(c)
  {
    Piece(c.data, c.size, i)
  }

  predicate Carries(id: u32, e: Event) {
    DeserializeHeader(e.data).Some? && DeserializeHeader(e.data).value.messageId == id
  }

  function IndexIn(e: Event): u8
    requires DeserializeHeader(e.data).Some?
  {
    DeserializeHeader(e.data).value.fragmentIndex
  }

  /** Whatever carries the message's number is one of its fragments. */
  ghost predicate Genuine(c: Cut, e: Event)
    requires IsCut(c)
  {
    Carries(c.id, e) ==> IndexIn(e) < Count(c) && e.data == FragmentAt(c.id, c.data, c.size, IndexIn(e))
  }

  // ---------- buffers ----------

  lemma {:induction false} BlankIsEmpty(f: seq<Option<Bytes>>)
    requires forall i :: 0 <= i < |f| ==> f[i].None?
    ensures CountPresent(f) == 0 && BytesPresent(f) == 0
  {
    if f != [] { BlankIsEmpty(f[..|f| - 1]); }
  }

  lemma {:induction false} FillingCounts(f: seq<Option<Bytes>>, i: nat, data: Bytes)
    requires i < |f| && f[i].None?
    ensures var g := f[i := Some(data)];
      CountPresent(g) == CountPresent(f) + 1 && BytesPresent(g) == BytesPresent(f) + |data|
  {
    var g, n := f[i := Some(data)], |f| - 1;
    if i < n {
      assert g[..n] == f[..n][i := Some(data)];
      FillingCounts(f[..n], i, data);
    } else {
      assert g[..n] == f[..n];
    }
  }

  lemma InsertKeepsGood(b: Partial, index: u8, data: Bytes)
    requires Good(b)
    ensures Good(Inserted(b, index, data))
  {
    if Takes(b, index) { FillingCounts(b.fragments, index, data); }
  }

  /** A full count means a full row of slots. */
  lemma {:induction false} FullMeansAll(f: seq<Option<Bytes>>)
    ensures CountPresent(f) == |f| <==> forall i :: 0 <= i < |f| ==> f[i].Some?
  {
    if f != [] { FullMeansAll(f[..|f| - 1]); }
  }

  /** The buffer holds nothing but the message's own parts. */
  ghost predicate Faithful(c: Cut, b: Partial)
    requires IsCut(c)
  {
    && Good(b) && b.fragmentCount == Count(c)
    && forall i :: 0 <= i < Count(c) && b.fragments[i].Some? ==> b.fragments[i].value == PartOf(c, i)
  }

  lemma {:induction false} JoinParts(c: Cut, f: seq<Option<Bytes>>, n: nat)
    requires IsCut(c) && n <= |f| == Count(c)
    requires forall i :: 0 <= i < n ==> f[i] == Some(PartOf(c, i))
    ensures Join(f[..n]) == Some(Joined(c.data, c.size, n))
  {
    if n > 0 {
      JoinParts(c, f, n - 1);
      assert f[..n][..n - 1] == f[..n - 1];
    }
  }

  /** A complete buffer of the message's parts assembles to the message. */
  lemma WholeMessage(c: Cut, b: Partial)
    requires IsCut(c) && Faithful(c, b) && IsComplete(b)
    ensures Assembled(b) == Some(c.data)
  {
    FullMeansAll(b.fragments);
    hide PartOf, CountPresent, BytesPresent;
    JoinParts(c, b.fragments, Count(c));
    assert b.fragments[..Count(c)] == b.fragments;
    PiecesMakeMessage(c.data, c.size);
  }

  lemma NewIsFaithful(c: Cut, now: Instant)
    requires IsCut(c)
    ensures Faithful(c, NewBuffer(Count(c), now))
  {
    BlankIsEmpty(NewBuffer(Count(c), now).fragments);
  }

  // ---------- safety ----------

  ghost predicate HoldsOnlyParts(c: Cut, s: Assembly)
    requires IsCut(c)
  {
    c.id in s.buffers ==> Faithful(c, s.buffers[c.id])
  }

  lemma OneFragment(c: Cut, e: Event)
    requires IsCut(c) && Genuine(c, e) && Carries(c.id, e)
    ensures DeserializeHeader(e.data).value == FragmentHeader(c.id, IndexIn(e), Count(c))
    ensures e.data[FRAGMENT_HEADER_SIZE..] == PartOf(c, IndexIn(e)) != []
    ensures IndexIn(e) < Count(c)
  {
    HeaderRoundTrip(FragmentHeader(c.id, IndexIn(e), Count(c)), PartOf(c, IndexIn(e)));
    PieceBounds(c.data, c.size, IndexIn(e));
    hide SerializeHeader, DeserializeHeader;
  }

  lemma StoringPart(c: Cut, room: Assembly, i: nat, now: Instant)
    requires IsCut(c) && i < Count(c) && HoldsOnlyParts(c, room)
    ensures
      var (s', r) := Stored(room, FragmentHeader(c.id, i, Count(c)), PartOf(c, i), now);
      HoldsOnlyParts(c, s') && (r.Some? ==> r.value == c.data)
  {
    var h := FragmentHeader(c.id, i, Count(c));
    var b := BufferFor(room, h, now);
    NewIsFaithful(c, now);
    InsertKeepsGood(b, i, PartOf(c, i));
    var b' := Inserted(b, i, PartOf(c, i));
    hide Good, PartOf;
    assert Faithful(c, b');
    if IsComplete(b') { WholeMessage(c, b'); }
  }

  lemma StepIsSafe(timeout: nat, maxSize: nat, c: Cut, s: Assembly, e: Event, room: Assembly, s': Assembly,
                   r: Option<Bytes>)
    requires IsCut(c) && HoldsOnlyParts(c, s) && Genuine(c, e)
    requires Processes(timeout, maxSize, s, e.data, e.now, room, s', r)
    ensures HoldsOnlyParts(c, s') && (Carries(c.id, e) && r.Some? ==> r.value == c.data)
  {
    hide Faithful;
    assert HoldsOnlyParts(c, Cleaned(timeout, e.now, s)) && HoldsOnlyParts(c, room);
    if Carries(c.id, e) {
      OneFragment(c, e);
      hide Genuine, Stored;
      StoringPart(c, room, IndexIn(e), e.now);
    }
  }

  lemma {:induction false} RunHoldsOnlyParts(timeout: nat, maxSize: nat, c: Cut, t: Trace, events: seq<Event>, k: nat)
    requires IsCut(c) && IsRun(timeout, maxSize, t, events) && forall i :: 0 <= i < |events| ==> Genuine(c, events[i])
    requires k <= |events|
    ensures HoldsOnlyParts(c, t.states[k])
    decreases k
  {
    if k > 0 {
      hide Processes, Genuine, HoldsOnlyParts;
      RunHoldsOnlyParts(timeout, maxSize, c, t, events, k - 1);
      StepIsSafe(timeout, maxSize, c, t.states[k - 1], events[k - 1], t.rooms[k - 1], t.states[k], t.outs[k - 1]);
    }
  }

  /** Under any interleaving, duplication, timeout and eviction, and whatever
      else arrives under other numbers, what comes out under a message's number
      is that message. */
  lemma OnlyWholeMessages(timeout: nat, maxSize: nat, c: Cut, t: Trace, events: seq<Event>, k: nat)
    requires IsCut(c) && IsRun(timeout, maxSize, t, events) && forall i :: 0 <= i < |events| ==> Genuine(c, events[i])
    requires k < |events| && Carries(c.id, events[k]) && t.outs[k].Some?
    ensures t.outs[k].value == c.data
  {
    hide Processes, Genuine, HoldsOnlyParts, Carries;
    RunHoldsOnlyParts(timeout, maxSize, c, t, events, k);
    StepIsSafe(timeout, maxSize, c, t.states[k], events[k], t.rooms[k], t.states[k + 1], t.outs[k]);
  }

  // ---------- completeness ----------

  function Below(n: nat): (s: set<nat>)
    ensures forall i: nat :: i in s <==> i < n
  {
    if n == 0 then {} else Below(n - 1) + {n - 1}
  }

  function AllParts(c: Cut): set<nat>
    requires IsCut(c)
  {
    Below(Count(c))
  }

  /** The fragments that have come since the message was last complete. */
  function Pending(c: Cut, events: seq<Event>): set<nat>
    requires IsCut(c)
  {
    if events == [] then {}
    else
      var before, e := Pending(c, events[..|events| - 1]), events[|events| - 1];
      if !Carries(c.id, e) then before
      else if before + {IndexIn(e)} == AllParts(c) then {}
      else before + {IndexIn(e)}
  }

  function PayloadBytes(events: seq<Event>): nat {
    if events == [] then 0
    else
      var n := |events[|events| - 1].data|;
      PayloadBytes(events[..|events| - 1]) + if n < FRAGMENT_HEADER_SIZE then 0 else n - FRAGMENT_HEADER_SIZE
  }

  function Present(b: Partial): set<nat> { set i: nat | i < |b.fragments| && b.fragments[i].Some? }

  /** The message's buffer holds exactly the pending fragments, nothing is older
      than `start`, and the counter has not outrun what came. */
  ghost predicate Tracks(c: Cut, s: Assembly, pending: set<nat>, start: Instant, bytes: nat)
    requires IsCut(c)
  {
    && (if pending == {} then c.id !in s.buffers
        else c.id in s.buffers && Faithful(c, s.buffers[c.id]) && Present(s.buffers[c.id]) == pending)
    && (forall k :: k in s.buffers ==> s.buffers[k].createdAt >= start)
    && s.current <= bytes
  }

  lemma NothingExpires(timeout: nat, now: Instant, s: Assembly, start: Instant)
    requires start <= now < start + timeout && forall k :: k in s.buffers ==> s.buffers[k].createdAt >= start
    ensures Cleaned(timeout, now, s) == s
  {
    assert Live(timeout, now, s.buffers) == s.buffers;
    assert s.buffers - s.buffers.Keys == map[];
  }

  lemma PresentAfter(b: Partial, i: u8, data: Bytes)
    requires i < b.fragmentCount == |b.fragments|
    ensures Present(Inserted(b, i, data)) == Present(b) + {i as nat}
  {
    var b' := Inserted(b, i, data);
    forall j: nat ensures j in Present(b') <==> j in Present(b) + {i as nat} { }
  }

  lemma CompleteWhenAllPresent(c: Cut, b: Partial)
    requires IsCut(c) && Faithful(c, b)
    ensures IsComplete(b) <==> Present(b) == AllParts(c)
  {
    FullMeansAll(b.fragments);
    hide PartOf, CountPresent, BytesPresent;
    if Present(b) == AllParts(c) {
      forall i | 0 <= i < |b.fragments| ensures b.fragments[i].Some? { assert i in AllParts(c); }
    }
  }

  lemma NothingPresent(b: Partial)
    requires forall i :: 0 <= i < |b.fragments| ==> b.fragments[i].None?
    ensures Present(b) == {}
  {
  }

  /** The buffer a pending fragment finds. */
  lemma BufferTracks(c: Cut, room: Assembly, pending: set<nat>, start: Instant, bytes: nat, i: nat, now: Instant)
    requires IsCut(c) && i < Count(c) && Tracks(c, room, pending, start, bytes)
    ensures
      var b := BufferFor(room, FragmentHeader(c.id, i, Count(c)), now);
      Faithful(c, b) && Present(b) == pending && |b.fragments| == Count(c)
  {
    NewIsFaithful(c, now);
    NothingPresent(NewBuffer(Count(c), now));
    hide PartOf, CountPresent, BytesPresent;
  }

  lemma StoringTracks(c: Cut, room: Assembly, pending: set<nat>, start: Instant, bytes: nat, i: nat, now: Instant)
    requires IsCut(c) && i < Count(c) && Tracks(c, room, pending, start, bytes) && now >= start
    ensures
      var (s', r) := Stored(room, FragmentHeader(c.id, i, Count(c)), PartOf(c, i), now);
      var got := pending + {i};
      && r == (if got == AllParts(c) then Some(c.data) else None)
      && Tracks(c, s', if got == AllParts(c) then {} else got, start, bytes + |PartOf(c, i)|)
  {
    var b := BufferFor(room, FragmentHeader(c.id, i, Count(c)), now);
    BufferTracks(c, room, pending, start, bytes, i, now);
    var b' := Inserted(b, i, PartOf(c, i));
    InsertKeepsGood(b, i, PartOf(c, i));
    PresentAfter(b, i, PartOf(c, i));
    hide Good, Present, PartOf, AllParts;
    assert Faithful(c, b');
    CompleteWhenAllPresent(c, b');
    if IsComplete(b') { WholeMessage(c, b'); }
    hide Faithful;
    assert b'.createdAt >= start;
  }

  lemma StepTracks(timeout: nat, maxSize: nat, c: Cut, s: Assembly, e: Event, room: Assembly, s': Assembly,
                   r: Option<Bytes>, before: seq<Event>, start: Instant)
    requires IsCut(c) && Genuine(c, e) && Tracks(c, s, Pending(c, before), start, PayloadBytes(before))
    requires start <= e.now < start + timeout && PayloadBytes(before + [e]) <= maxSize
    requires Processes(timeout, maxSize, s, e.data, e.now, room, s', r)
    ensures Tracks(c, s', Pending(c, before + [e]), start, PayloadBytes(before + [e]))
    ensures Carries(c.id, e) ==>
      r == if Pending(c, before) + {IndexIn(e) as nat} == AllParts(c) then Some(c.data) else None
  {
    assert (before + [e])[..|before|] == before;
    NothingExpires(timeout, e.now, s, start);
    hide Cleaned, Faithful, Present, AllParts, PartOf;
    if Carries(c.id, e) {
      OneFragment(c, e);
      KeepsCount(c, s, Pending(c, before), start, PayloadBytes(before));
      StoringTracks(c, s, Pending(c, before), start, PayloadBytes(before), IndexIn(e), e.now);
    }
  }

  lemma KeepsCount(c: Cut, s: Assembly, pending: set<nat>, start: Instant, bytes: nat)
    requires IsCut(c) && Tracks(c, s, pending, start, bytes)
    ensures c.id in s.buffers ==> s.buffers[c.id].fragmentCount == Count(c)
  {
  }

  /** No fragment waits long enough to expire, and their bytes stay within the
      limit. */
  ghost predicate Unhurried(timeout: nat, maxSize: nat, c: Cut, events: seq<Event>, start: Instant)
    requires IsCut(c)
  {
    && PayloadBytes(events) <= maxSize
    && forall i :: 0 <= i < |events| ==> Genuine(c, events[i]) && start <= events[i].now < start + timeout
  }

  lemma {:induction false} FewerBytes(events: seq<Event>, k: nat)
    requires k <= |events|
    ensures PayloadBytes(events[..k]) <= PayloadBytes(events)
    decreases |events|
  {
    if k < |events| {
      FewerBytes(events[..|events| - 1], k);
      assert events[..|events| - 1][..k] == events[..k];
    } else {
      assert events[..k] == events;
    }
  }

  lemma TrackedStep(timeout: nat, maxSize: nat, c: Cut, t: Trace, events: seq<Event>, start: Instant, k: nat)
    requires IsCut(c) && IsRun(timeout, maxSize, t, events) && Unhurried(timeout, maxSize, c, events, start)
        && k < |events|
    requires Tracks(c, t.states[k], Pending(c, events[..k]), start, PayloadBytes(events[..k]))
    ensures Tracks(c, t.states[k + 1], Pending(c, events[..k + 1]), start, PayloadBytes(events[..k + 1]))
    ensures Carries(c.id, events[k]) ==>
      t.outs[k] == if Pending(c, events[..k]) + {IndexIn(events[k]) as nat} == AllParts(c) then Some(c.data) else None
  {
    hide Processes, Genuine, Carries, Tracks, Pending, AllParts;
    FewerBytes(events, k + 1);
    assert events[..k] + [events[k]] == events[..k + 1];
    hide PayloadBytes;
    StepTracks(timeout, maxSize, c, t.states[k], events[k], t.rooms[k], t.states[k + 1], t.outs[k], events[..k], start);
  }

  lemma {:induction false} RunTracks(timeout: nat, maxSize: nat, c: Cut, t: Trace, events: seq<Event>, start: Instant,
                                     k: nat)
    requires IsCut(c) && IsRun(timeout, maxSize, t, events) && Unhurried(timeout, maxSize, c, events, start)
        && k <= |events|
    ensures Tracks(c, t.states[k], Pending(c, events[..k]), start, PayloadBytes(events[..k]))
    decreases k
  {
    if k == 0 {
      assert t.states[0].buffers == map[];
    } else {
      hide Processes, Genuine, Carries, Tracks, Pending, AllParts, Unhurried, PayloadBytes;
      RunTracks(timeout, maxSize, c, t, events, start, k - 1);
      TrackedStep(timeout, maxSize, c, t, events, start, k - 1);
    }
  }

  /** With no timeout and the bytes within the limit, a fragment gives back the
      message exactly when it is the last one missing. */
  lemma LastFragmentDelivers(timeout: nat, maxSize: nat, c: Cut, t: Trace, events: seq<Event>, start: Instant, k: nat)
    requires IsCut(c) && IsRun(timeout, maxSize, t, events) && Unhurried(timeout, maxSize, c, events, start)
    requires k < |events| && Carries(c.id, events[k])
    ensures t.outs[k]
         == if Pending(c, events[..k]) + {IndexIn(events[k]) as nat} == AllParts(c) then Some(c.data) else None
  {
    hide *;
    RunTracks(timeout, maxSize, c, t, events, start, k);
    TrackedStep(timeout, maxSize, c, t, events, start, k);
  }

  // ---------- the size counter ----------

  lemma HeldUpdate(buffers: map<u32, Partial>, k: u32, b: Partial)
    ensures Held(buffers[k := b]) == Held(buffers - {k}) + b.totalSize
  {
    HeldWithout(buffers[k := b], k);
    assert buffers[k := b] - {k} == buffers - {k};
  }

  lemma {:induction false} HeldSplit(buffers: map<u32, Partial>, keys: set<u32>)
    requires keys <= buffers.Keys
    ensures Held(buffers) == Held(buffers - keys) + Held(buffers - (buffers.Keys - keys))
    decreases |keys|
  {
    if keys == {} {
      assert buffers - keys == buffers && buffers - (buffers.Keys - keys) == map[];
    } else {
      var k :| k in keys;
      HeldSplit(buffers, keys - {k});
      HeldWithout(buffers - (keys - {k}), k);
      assert buffers - (keys - {k}) - {k} == buffers - keys;
      HeldWithout(buffers - (buffers.Keys - keys), k);
      assert buffers - (buffers.Keys - keys) - {k} == buffers - (buffers.Keys - (keys - {k}));
    }
  }

  /** The counter runs ahead of the bytes held by `excess`. */
  ghost predicate AheadBy(s: Assembly, excess: nat) { s.current == Held(s.buffers) + excess }

  /** The bytes of a fragment that is counted but not kept: its slot is filled
      already, or does not exist. */
  function Wasted(c: Assembly, room: Assembly, data: Bytes, now: Instant): nat {
    match DeserializeHeader(data)
    case None => 0
    case Some(h) =>
      if Mismatch(c, h) || Takes(BufferFor(room, h, now), h.fragmentIndex) then 0 else |data| - FRAGMENT_HEADER_SIZE
  }

  lemma CleaningKeepsExcess(timeout: nat, now: Instant, s: Assembly, excess: nat)
    requires AheadBy(s, excess)
    ensures AheadBy(Cleaned(timeout, now, s), excess)
  {
    var live := Live(timeout, now, s.buffers);
    HeldSplit(s.buffers, live.Keys);
    assert s.buffers - (s.buffers.Keys - live.Keys) == live;
  }

  lemma ExpiryKeepsExcess(s: Assembly, s': Assembly, excess: nat)
    requires AheadBy(s, excess) && ExpiresOldest(s, s')
    ensures AheadBy(s', excess)
  {
    if s.buffers != map[] {
      var k :| IsOldest(s.buffers, k) && s' == Dropped(s, k);
      HeldWithout(s.buffers, k);
    }
  }

  lemma StoringExcess(room: Assembly, h: FragmentHeader, payload: Bytes, now: Instant, excess: nat)
    requires AheadBy(room, excess)
    ensures AheadBy(Stored(room, h, payload, now).0,
                    excess + if Takes(BufferFor(room, h, now), h.fragmentIndex) then 0 else |payload|)
  {
    var id := h.messageId;
    var b := Inserted(BufferFor(room, h, now), h.fragmentIndex, payload);
    HeldUpdate(room.buffers, id, b);
    if id in room.buffers { HeldWithout(room.buffers, id); } else { assert room.buffers - {id} == room.buffers; }
    hide Held, Takes, IsComplete;
  }

  lemma StepExcess(timeout: nat, maxSize: nat, s: Assembly, data: Bytes, now: Instant,
                   room: Assembly, s': Assembly, r: Option<Bytes>, excess: nat)
    requires AheadBy(s, excess) && Processes(timeout, maxSize, s, data, now, room, s', r)
    ensures AheadBy(s', excess + Wasted(Cleaned(timeout, now, s), room, data, now))
  {
    var c := Cleaned(timeout, now, s);
    CleaningKeepsExcess(timeout, now, s, excess);
    hide AheadBy, Cleaned, Stored, Takes, ExpiresOldest, BufferFor;
    if DeserializeHeader(data).Some? && !Mismatch(c, DeserializeHeader(data).value) {
      var h, payload := DeserializeHeader(data).value, data[FRAGMENT_HEADER_SIZE..];
      if c.current + |payload| > maxSize { ExpiryKeepsExcess(c, room, excess); }
      StoringExcess(room, h, payload, now, excess);
    }
  }

  ghost function TotalWasted(timeout: nat, states: seq<Assembly>, rooms: seq<Assembly>, events: seq<Event>): nat
    requires |states| == |events| + 1 && |rooms| == |events|
    decreases |events|
  {
    if events == [] then 0
    else
      var k := |events| - 1;
      TotalWasted(timeout, states[..k + 1], rooms[..k], events[..k])
        + Wasted(Cleaned(timeout, events[k].now, states[k]), rooms[k], events[k].data, events[k].now)
  }

  /** The counter never falls below the bytes held. It is ahead of them by just
      the bytes of the fragments that came and were not kept. */
  lemma {:induction false} CounterIsAheadByWaste(timeout: nat, maxSize: nat, t: Trace, events: seq<Event>)
    requires IsRun(timeout, maxSize, t, events)
    ensures AheadBy(t.states[|events|], TotalWasted(timeout, t.states, t.rooms, events))
    decreases |events|
  {
    if events == [] {
      assert Held(map[]) == 0;
    } else {
      var k := |events| - 1;
      hide Processes, AheadBy, Wasted;
      var p := Prefix(t, k);
      CounterIsAheadByWaste(timeout, maxSize, p, events[..k]);
      StepExcess(timeout, maxSize, t.states[k], events[k].data, events[k].now, t.rooms[k], t.states[k + 1], t.outs[k],
                 TotalWasted(timeout, p.states, p.rooms, events[..k]));
    }
  }

  /** The debug assertion at the end of cleaning up. */
  ghost predicate SizeTrackingHolds(timeout: nat, now: Instant, s: Assembly) {
    Cleaned(timeout, now, s).current == Held(Cleaned(timeout, now, s).buffers)
  }

  /** It holds just as long as no duplicate and no out-of-range fragment with
      bytes in it has come. */
  lemma AssertionHoldsIffNoWaste(timeout: nat, maxSize: nat, t: Trace, events: seq<Event>, now: Instant)
    requires IsRun(timeout, maxSize, t, events)
    ensures SizeTrackingHolds(timeout, now, t.states[|events|])
        <==> TotalWasted(timeout, t.states, t.rooms, events) == 0
  {
    CounterIsAheadByWaste(timeout, maxSize, t, events);
    hide IsRun;
    CleaningKeepsExcess(timeout, now, t.states[|events|], TotalWasted(timeout, t.states, t.rooms, events));
  }
}
