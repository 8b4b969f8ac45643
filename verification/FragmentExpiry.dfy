/** How long the assembler waits: a message comes out only of fragments that have
    come within the timeout, and what cannot be a part of it leaves it alone. */
module FragmentExpiry {
  import opened Wrappers
  import opened Fragments
  import opened Reassembly
  import opened ReassemblyRuns

  ghost predicate ClockOrdered(events: seq<Event>) {
    forall i, j :: 0 <= i < j < |events| ==> events[i].now <= events[j].now
  }

  /** Fragment `index` of the message came at `from` or later among the first `n`. */
  ghost predicate CameSince(c: Cut, events: seq<Event>, n: nat, index: nat, from: Instant)
    requires n <= |events|
  {
    exists j :: 0 <= j < n && Carries(c.id, events[j]) && IndexIn(events[j]) == index && from <= events[j].now
  }

  /** Every fragment held has come since its buffer was made. */
  ghost predicate CameHeld(c: Cut, s: Assembly, events: seq<Event>, n: nat)
    requires IsCut(c) && n <= |events|
  {
    HoldsOnlyParts(c, s) && (c.id in s.buffers ==>
      var b := s.buffers[c.id];
      forall i :: 0 <= i < |b.fragments| && b.fragments[i].Some? ==> CameSince(c, events, n, i, b.createdAt))
  }

  lemma CameLater(c: Cut, events: seq<Event>, n: nat, index: nat, from: Instant)
    requires n < |events| && CameSince(c, events, n, index, from)
    ensures CameSince(c, events, n + 1, index, from)
  {
    var j :| 0 <= j < n && Carries(c.id, events[j]) && IndexIn(events[j]) == index && from <= events[j].now;
    assert 0 <= j < n + 1 && Carries(c.id, events[j]);
  }

  /** What a fragment is stored with came since the buffer was made, itself included. */
  lemma StoringCame(c: Cut, room: Assembly, events: seq<Event>, n: nat, b: Partial, b': Partial)
    requires IsCut(c) && n < |events| && Carries(c.id, events[n]) && Genuine(c, events[n]) && HoldsOnlyParts(c, room)
    requires c.id in room.buffers ==> CameHeld(c, room, events, n)
    requires b == BufferFor(room, FragmentHeader(c.id, IndexIn(events[n]), Count(c)), events[n].now)
    requires b' == Inserted(b, IndexIn(events[n]), PartOf(c, IndexIn(events[n])))
    requires b.createdAt <= events[n].now
    ensures forall i :: 0 <= i < |b'.fragments| && b'.fragments[i].Some? ==>
      CameSince(c, events, n + 1, i, b'.createdAt)
  {
    hide Faithful, Good, PartOf, CameSince;
    forall i | 0 <= i < |b'.fragments| && b'.fragments[i].Some?
      ensures CameSince(c, events, n + 1, i, b'.createdAt)
    {
      if i == IndexIn(events[n]) {
        CameNow(c, events, n, b'.createdAt);
      } else {
        assert b.fragments[i].Some?;
        CameLater(c, events, n, i, b'.createdAt);
      }
    }
  }

  lemma CameNow(c: Cut, events: seq<Event>, n: nat, from: Instant)
    requires n < |events| && Carries(c.id, events[n]) && from <= events[n].now
    ensures CameSince(c, events, n + 1, IndexIn(events[n]), from)
  {
  }

  ghost predicate MadeBefore(c: Cut, s: Assembly, events: seq<Event>, n: nat)
    requires n <= |events|
  {
    c.id in s.buffers ==> forall m :: n <= m < |events| ==> s.buffers[c.id].createdAt <= events[m].now
  }

  /** The message's buffer is the one there was, if it has not waited too long. */
  lemma RoomFrom(timeout: nat, maxSize: nat, c: Cut, s: Assembly, e: Event, room: Assembly, s': Assembly,
                 r: Option<Bytes>)
    requires Processes(timeout, maxSize, s, e.data, e.now, room, s', r)
    ensures c.id in room.buffers ==>
      c.id in s.buffers && room.buffers[c.id] == s.buffers[c.id]
      && (if s.buffers[c.id].createdAt <= e.now then e.now - s.buffers[c.id].createdAt else 0) < timeout
  {
    hide Held, Stored, Mismatch;
  }

  lemma OthersLeaveIt(timeout: nat, maxSize: nat, c: Cut, s: Assembly, e: Event, room: Assembly, s': Assembly,
                      r: Option<Bytes>)
    requires Processes(timeout, maxSize, s, e.data, e.now, room, s', r) && !Carries(c.id, e)
    ensures c.id in s'.buffers ==> c.id in s.buffers && s'.buffers[c.id] == s.buffers[c.id]
  {
    RoomFrom(timeout, maxSize, c, s, e, room, s', r);
    hide Held, Inserted, IsComplete, ExpiresOldest, Cleaned, DeserializeHeader;
    assert DeserializeHeader(e.data).Some? && !Mismatch(Cleaned(timeout, e.now, s), DeserializeHeader(e.data).value) ==>
      (s', r) == Stored(room, DeserializeHeader(e.data).value, e.data[FRAGMENT_HEADER_SIZE..], e.now);
  }

  lemma OwnIsStored(timeout: nat, maxSize: nat, c: Cut, s: Assembly, e: Event, room: Assembly, s': Assembly,
                    r: Option<Bytes>)
    requires IsCut(c) && HoldsOnlyParts(c, s) && Genuine(c, e) && Carries(c.id, e)
    requires Processes(timeout, maxSize, s, e.data, e.now, room, s', r)
    ensures HoldsOnlyParts(c, room) && IndexIn(e) < Count(c)
    ensures (s', r) == Stored(room, FragmentHeader(c.id, IndexIn(e), Count(c)), PartOf(c, IndexIn(e)), e.now)
  {
    OneFragment(c, e);
    hide Faithful, Stored, Held;
    assert !Mismatch(Cleaned(timeout, e.now, s), FragmentHeader(c.id, IndexIn(e), Count(c))) by { hide Genuine; }
  }

  /** The buffer after the message's own fragment. */
  function OwnBuffer(c: Cut, room: Assembly, e: Event): Partial
    requires IsCut(c) && Carries(c.id, e) && IndexIn(e) < Count(c)
  {
    Inserted(BufferFor(room, FragmentHeader(c.id, IndexIn(e), Count(c)), e.now), IndexIn(e), PartOf(c, IndexIn(e)))
  }

  lemma OwnOutcome(c: Cut, room: Assembly, e: Event, s': Assembly, r: Option<Bytes>)
    requires IsCut(c) && Carries(c.id, e) && IndexIn(e) < Count(c) && HoldsOnlyParts(c, room)
    requires (s', r) == Stored(room, FragmentHeader(c.id, IndexIn(e), Count(c)), PartOf(c, IndexIn(e)), e.now)
    ensures c.id in s'.buffers ==> s'.buffers[c.id] == OwnBuffer(c, room, e)
    ensures r.Some? ==> IsComplete(OwnBuffer(c, room, e))
    ensures Faithful(c, OwnBuffer(c, room, e))
  {
    NewIsFaithful(c, e.now);
    var b := BufferFor(room, FragmentHeader(c.id, IndexIn(e), Count(c)), e.now);
    InsertKeepsGood(b, IndexIn(e), PartOf(c, IndexIn(e)));
    hide Good, PartOf;
  }

  lemma OwnCame(timeout: nat, maxSize: nat, c: Cut, t: Trace, events: seq<Event>, n: nat)
    requires IsCut(c) && IsRun(timeout, maxSize, t, events) && n < |events| && ClockOrdered(events)
    requires Genuine(c, events[n]) && Carries(c.id, events[n])
    requires CameHeld(c, t.states[n], events, n) && MadeBefore(c, t.states[n], events, n)
    ensures HoldsOnlyParts(c, t.rooms[n]) && IndexIn(events[n]) < Count(c)
    ensures var b' := OwnBuffer(c, t.rooms[n], events[n]);
      && b'.createdAt <= events[n].now && (timeout > 0 ==> events[n].now - b'.createdAt < timeout)
      && forall i :: 0 <= i < |b'.fragments| && b'.fragments[i].Some? ==> CameSince(c, events, n + 1, i, b'.createdAt)
  {
    var e, s, room := events[n], t.states[n], t.rooms[n];
    assert Processes(timeout, maxSize, s, e.data, e.now, room, t.states[n + 1], t.outs[n]);
    hide Processes, Genuine, CameSince, Faithful, Carries, PartOf, IsRun, ClockOrdered;
    RoomFrom(timeout, maxSize, c, s, e, room, t.states[n + 1], t.outs[n]);
    OwnIsStored(timeout, maxSize, c, s, e, room, t.states[n + 1], t.outs[n]);
    var b := BufferFor(room, FragmentHeader(c.id, IndexIn(e), Count(c)), e.now);
    assert CameHeld(c, room, events, n);
    StoringCame(c, room, events, n, b, OwnBuffer(c, room, e));
  }

  lemma StepCame(timeout: nat, maxSize: nat, c: Cut, t: Trace, events: seq<Event>, n: nat)
    requires IsCut(c) && IsRun(timeout, maxSize, t, events) && n < |events| && ClockOrdered(events)
    requires Genuine(c, events[n]) && CameHeld(c, t.states[n], events, n) && MadeBefore(c, t.states[n], events, n)
    ensures CameHeld(c, t.states[n + 1], events, n + 1) && MadeBefore(c, t.states[n + 1], events, n + 1)
  {
    var e, s, room, s', r := events[n], t.states[n], t.rooms[n], t.states[n + 1], t.outs[n];
    assert Processes(timeout, maxSize, s, e.data, e.now, room, s', r);
    if Carries(c.id, e) {
      OwnCame(timeout, maxSize, c, t, events, n);
      OwnIsStored(timeout, maxSize, c, s, e, room, s', r);
      OwnOutcome(c, room, e, s', r);
      hide Processes, Genuine, CameSince, Faithful, Carries, PartOf, Stored, OwnBuffer;
    } else {
      OthersLeaveIt(timeout, maxSize, c, s, e, room, s', r);
      hide Processes, Genuine, CameSince, Faithful, Carries;
      if c.id in s'.buffers {
        var b := s'.buffers[c.id];
        forall i | 0 <= i < |b.fragments| && b.fragments[i].Some?
          ensures CameSince(c, events, n + 1, i, b.createdAt)
        {
          CameLater(c, events, n, i, b.createdAt);
        }
      }
    }
  }

  lemma {:induction false} RunCame(timeout: nat, maxSize: nat, c: Cut, t: Trace, events: seq<Event>, n: nat)
    requires IsCut(c) && IsRun(timeout, maxSize, t, events) && n <= |events| && ClockOrdered(events)
    requires forall i :: 0 <= i < |events| ==> Genuine(c, events[i])
    ensures CameHeld(c, t.states[n], events, n) && MadeBefore(c, t.states[n], events, n)
  {
    if n == 0 {
      assert t.states[0].buffers == map[];
    } else {
      hide CameHeld, MadeBefore, Genuine, Processes, ClockOrdered;
      RunCame(timeout, maxSize, c, t, events, n - 1);
      StepCame(timeout, maxSize, c, t, events, n - 1);
    }
  }

  /** The part came no longer ago than the timeout allows. */
  ghost predicate CameInTime(timeout: nat, c: Cut, events: seq<Event>, n: nat, index: nat)
    requires n < |events|
  {
    exists j :: 0 <= j <= n && Carries(c.id, events[j]) && IndexIn(events[j]) == index
                && events[n].now - events[j].now < timeout
  }

  lemma SinceIsInTime(timeout: nat, c: Cut, events: seq<Event>, n: nat, index: nat, from: Instant)
    requires n < |events| && CameSince(c, events, n + 1, index, from) && events[n].now - from < timeout
    ensures CameInTime(timeout, c, events, n, index)
  {
    var j :| 0 <= j < n + 1 && Carries(c.id, events[j]) && IndexIn(events[j]) == index && from <= events[j].now;
    assert 0 <= j <= n && Carries(c.id, events[j]);
  }

  /** When a message comes out, each of its fragments has come within the timeout: one
      that came longer ago is forgotten, with all that came beside it. */
  lemma OutOnlyInTime(timeout: nat, maxSize: nat, c: Cut, t: Trace, events: seq<Event>, n: nat, index: nat)
    requires IsCut(c) && IsRun(timeout, maxSize, t, events) && n < |events| && ClockOrdered(events) && timeout > 0
    requires forall i :: 0 <= i < |events| ==> Genuine(c, events[i])
    requires Carries(c.id, events[n]) && t.outs[n].Some? && index < Count(c)
    ensures CameInTime(timeout, c, events, n, index)
  {
    var e, room := events[n], t.rooms[n];
    assert Processes(timeout, maxSize, t.states[n], e.data, e.now, room, t.states[n + 1], t.outs[n]);
    RunCame(timeout, maxSize, c, t, events, n);
    OwnCame(timeout, maxSize, c, t, events, n);
    assert HoldsOnlyParts(c, t.states[n]) by { hide IsRun; }
    hide IsRun, Processes, Genuine, CameSince, CameInTime, Faithful, Carries, PartOf, CameHeld, MadeBefore,
      ClockOrdered;
    OwnIsStored(timeout, maxSize, c, t.states[n], e, room, t.states[n + 1], t.outs[n]);
    OwnOutcome(c, room, e, t.states[n + 1], t.outs[n]);
    var b' := OwnBuffer(c, room, e);
    CompleteHasAll(c, b', index);
    hide OwnBuffer;
    SinceIsInTime(timeout, c, events, n, index, b'.createdAt);
  }

  lemma CompleteHasAll(c: Cut, b: Partial, index: nat)
    requires IsCut(c) && Faithful(c, b) && IsComplete(b) && index < Count(c)
    ensures |b.fragments| == Count(c) && b.fragments[index].Some?
  {
    FullMeansAll(b.fragments);
  }

  // ---------- what is ignored ----------

  /** Less than the timeout lies between; no time does where the order is wrong. */
  predicate StillYoung(timeout: nat, now: Instant, createdAt: Instant) {
    (if createdAt <= now then now - createdAt else 0) < timeout
  }

  /** Of the buffers exactly those made less than the timeout ago are left. */
  ghost predicate JustLive(timeout: nat, now: Instant, before: map<u32, Partial>, after: map<u32, Partial>) {
    && (forall k :: k in after <==> k in before && StillYoung(timeout, now, before[k].createdAt))
    && forall k :: k in after ==> after[k] == before[k]
  }

  /** A fragment too short for its header, or of another count than the message has
      begun with, does nothing but let time pass. */
  lemma IgnoredButForTime(timeout: nat, maxSize: nat, s: Assembly, e: Event, room: Assembly, s': Assembly,
                          r: Option<Bytes>)
    requires Processes(timeout, maxSize, s, e.data, e.now, room, s', r)
    requires |e.data| < 6 || (var h := DeserializeHeader(e.data).value;
      h.messageId in s.buffers && StillYoung(timeout, e.now, s.buffers[h.messageId].createdAt)
      && s.buffers[h.messageId].fragmentCount != h.fragmentCount)
    ensures r == None && JustLive(timeout, e.now, s.buffers, s'.buffers)
  {
    hide Held, Stored;
  }

  /** One whose number is past the count, or has come before, changes nothing held of
      its message. */
  lemma RepeatsChangeNothing(room: Assembly, h: FragmentHeader, payload: Bytes, now: Instant)
    requires h.messageId in room.buffers
    requires var b := room.buffers[h.messageId];
      |b.fragments| == b.fragmentCount && !IsComplete(b)
      && (h.fragmentIndex >= b.fragmentCount || b.fragments[h.fragmentIndex].Some?)
    ensures var (s', r) := Stored(room, h, payload, now); r == None && s'.buffers == room.buffers
  {
  }
}
