/** Putting fragments together again: buffers by message number, with a time
    limit, a size limit and the eviction of the oldest. */
module Reassembly {
  import opened Wrappers
  import opened Fragments

  /** What has come of one message. */
  datatype Partial = Partial(
    fragments: seq<Option<Bytes>>,
    fragmentCount: u8,
    receivedCount: nat,
    createdAt: Instant,
    totalSize: nat)

  function NewBuffer(fragmentCount: u8, now: Instant): Partial {
    Partial(seq(fragmentCount, _ => None), fragmentCount, 0, now, 0)
  }

  function CountPresent(fragments: seq<Option<Bytes>>): (n: nat)
    ensures n <= |fragments|
  {
    if fragments == [] then 0
    else CountPresent(fragments[..|fragments| - 1]) + if fragments[|fragments| - 1].Some? then 1 else 0
  }

  function BytesPresent(fragments: seq<Option<Bytes>>): nat {
    if fragments == [] then 0
    else
      var last := fragments[|fragments| - 1];
      BytesPresent(fragments[..|fragments| - 1]) + if last.Some? then |last.value| else 0
  }

  /** The counters say what the slots hold. */
  ghost predicate Good(b: Partial) {
    && |b.fragments| == b.fragmentCount
    && b.receivedCount == CountPresent(b.fragments)
    && b.totalSize == BytesPresent(b.fragments)
  }

  predicate Takes(b: Partial, index: u8) {
    index < b.fragmentCount && index < |b.fragments| && b.fragments[index].None?
  }

  function Inserted(b: Partial, index: u8, data: Bytes): Partial {
    if Takes(b, index)
    then b.(totalSize := b.totalSize + |data|, receivedCount := b.receivedCount + 1,
        fragments := b.fragments[index := Some(data)])
    else b
  }

  predicate IsComplete(b: Partial) { b.receivedCount == b.fragmentCount }

  /** The fragments in order, or nothing if one of them is missing. */
  function Join(fragments: seq<Option<Bytes>>): Option<Bytes> {
    if fragments == [] then Some([])
    else
      var front, last := Join(fragments[..|fragments| - 1]), fragments[|fragments| - 1];
      if front.Some? && last.Some? then Some(front.value + last.value) else None
  }

  function Assembled(b: Partial): Option<Bytes> {
    if IsComplete(b) then Join(b.fragments) else None
  }

  datatype Assembly = Assembly(buffers: map<u32, Partial>, current: nat)

  /** The bytes held in all the buffers together. */
  ghost function Held(buffers: map<u32, Partial>): nat {
    if buffers == map[] then 0
    else
      var k :| k in buffers;
      buffers[k].totalSize + Held(buffers - {k})
  }

  lemma {:induction false} HeldWithout(buffers: map<u32, Partial>, k: u32)
    requires k in buffers
    ensures Held(buffers) == buffers[k].totalSize + Held(buffers - {k})
    decreases |buffers|
  {
    var j :| j in buffers && Held(buffers) == buffers[j].totalSize + Held(buffers - {j});
    if j != k {
      RemovalShrinks(buffers, j);
      RemovalShrinks(buffers, k);
      HeldWithout(buffers - {j}, k);
      HeldWithout(buffers - {k}, j);
      assert buffers - {j} - {k} == buffers - {k} - {j};
    }
  }

  function SaturatingSub(a: nat, b: nat): nat { if a >= b then a - b else 0 }

  // ---------- the operations, as relations on the contents ----------

  function Live(timeout: nat, now: Instant, buffers: map<u32, Partial>): map<u32, Partial> {
    map k | k in buffers && Elapsed(now, buffers[k].createdAt) < timeout :: buffers[k]
  }

  ghost function Cleaned(timeout: nat, now: Instant, s: Assembly): Assembly {
    var live := Live(timeout, now, s.buffers);
    Assembly(live, SaturatingSub(s.current, Held(s.buffers - live.Keys)))
  }

  ghost predicate IsOldest(buffers: map<u32, Partial>, k: u32) {
    k in buffers && forall j :: j in buffers ==> buffers[k].createdAt <= buffers[j].createdAt
  }

  function Dropped(s: Assembly, k: u32): Assembly
    requires k in s.buffers
  {
    Assembly(s.buffers - {k}, SaturatingSub(s.current, s.buffers[k].totalSize))
  }

  /** Any buffer no other is older than may go. */
  ghost predicate ExpiresOldest(s: Assembly, s': Assembly) {
    if s.buffers == map[] then s' == s else exists k :: IsOldest(s.buffers, k) && s' == Dropped(s, k)
  }

  predicate Mismatch(s: Assembly, h: FragmentHeader) {
    h.messageId in s.buffers && s.buffers[h.messageId].fragmentCount != h.fragmentCount
  }

  ghost predicate MakesRoom(maxSize: nat, size: nat, s: Assembly, room: Assembly) {
    if s.current + size > maxSize then ExpiresOldest(s, room) else room == s
  }

  function BufferFor(room: Assembly, h: FragmentHeader, now: Instant): Partial {
    if h.messageId in room.buffers then room.buffers[h.messageId] else NewBuffer(h.fragmentCount, now)
  }

  /** A fragment put where there is room for it, and the message it completes. */
  function Stored(room: Assembly, h: FragmentHeader, payload: Bytes, now: Instant): (Assembly, Option<Bytes>) {
    var b := Inserted(BufferFor(room, h, now), h.fragmentIndex, payload);
    var current := room.current + |payload|;
    if h.fragmentIndex < b.fragmentCount && IsComplete(b)
    then (Assembly(room.buffers - {h.messageId}, SaturatingSub(current, b.totalSize)), Assembled(b))
    else (Assembly(room.buffers[h.messageId := b], current), None)
  }

  /** One call. `room` is what the fragment found when it was stored. */
  ghost predicate Processes(timeout: nat, maxSize: nat, s: Assembly, data: Bytes, now: Instant,
                            room: Assembly, s': Assembly, r: Option<Bytes>) {
    var c := Cleaned(timeout, now, s);
    match DeserializeHeader(data)
    case None => room == s' == c && r == None
    case Some(h) =>
      if Mismatch(c, h) then room == s' == c && r == None
      else
        var payload := data[FRAGMENT_HEADER_SIZE..];
        MakesRoom(maxSize, |payload|, c, room) && (s', r) == Stored(room, h, payload, now)
  }

  // ---------- the assembler ----------

  /** Tracks the fragments of one message. */
  class FragmentBuffer {
    var fragments: seq<Option<Bytes>>
    const fragmentCount: u8
    var receivedCount: nat
    const createdAt: Instant
    var totalSize: nat

    function Value(): Partial
      reads this
    {
      Partial(fragments, fragmentCount, receivedCount, createdAt, totalSize)
    }

    constructor (fragmentCount: u8, now: Instant)
      ensures Value() == NewBuffer(fragmentCount, now)
    {
      fragments := seq(fragmentCount, _ => None);
      this.fragmentCount, createdAt, receivedCount, totalSize := fragmentCount, now, 0, 0;
    }

    method Insert(index: u8, data: Bytes) returns (complete: bool)
      requires |fragments| == fragmentCount
      modifies this
      ensures Value() == Inserted(old(Value()), index, data) && |fragments| == fragmentCount
      ensures complete == (index < fragmentCount && IsComplete(Value()))
    {
      if index >= fragmentCount { return false; }
      if fragments[index].None? {
        totalSize := totalSize + |data|;
        receivedCount := receivedCount + 1;
        fragments := fragments[index := Some(data)];
      }
      complete := receivedCount == fragmentCount;
    }

    method Assemble() returns (r: Option<Bytes>)
      ensures r == Assembled(Value())
    {
      if receivedCount != fragmentCount { return None; }
      var result: Bytes := [];
      for i := 0 to |fragments|
        invariant Join(fragments[..i]) == Some(result)
      {
        assert fragments[..i + 1][..i] == fragments[..i];
        match fragments[i]
        case Some(data) => result := result + data;
        case None =>
          MissingPart(fragments, i + 1, |fragments|);
          return None;
      }
      assert fragments[..|fragments|] == fragments;
      return Some(result);
    }
  }

  lemma {:induction false} MissingPart(fragments: seq<Option<Bytes>>, k: nat, n: nat)
    requires k <= n <= |fragments| && Join(fragments[..k]).None?
    ensures Join(fragments[..n]).None?
    ensures n == |fragments| ==> Join(fragments).None?
    decreases n
  {
    if k < n {
      MissingPart(fragments, k, n - 1);
      assert fragments[..n][..n - 1] == fragments[..n - 1];
    }
    assert n == |fragments| ==> fragments[..n] == fragments;
  }

  ghost function ValuesOf(buffers: map<u32, FragmentBuffer>): (values: map<u32, Partial>)
    reads buffers.Values
    ensures values.Keys == buffers.Keys
  {
    map k | k in buffers :: buffers[k].Value()
  }

  lemma ValueAt(buffers: map<u32, FragmentBuffer>, k: u32)
    requires k in buffers
    ensures buffers[k] in buffers.Values
    ensures var b := ValuesOf(buffers)[k];
      b == buffers[k].Value() && b.createdAt == buffers[k].createdAt && b.totalSize == buffers[k].totalSize
  {
  }

  /** Each message has a buffer object of its own, with a slot per fragment. */
  ghost predicate Separate(buffers: map<u32, FragmentBuffer>)
    reads buffers.Values
  {
    && (forall j, k :: j in buffers && k in buffers && j != k ==> buffers[j] != buffers[k])
    && forall k :: k in buffers ==> |buffers[k].fragments| == buffers[k].fragmentCount
  }

  lemma Without(buffers: map<u32, FragmentBuffer>, k: u32)
    ensures ValuesOf(buffers - {k}) == ValuesOf(buffers) - {k} && (buffers - {k}).Values <= buffers.Values
    ensures Separate(buffers) ==> Separate(buffers - {k})
  {
  }

  class FragmentAssembler {
    var buffers: map<u32, FragmentBuffer>
    const timeout: nat
    const maxBufferSize: nat
    var currentBufferSize: nat

    ghost predicate Valid()
      reads this, buffers.Values
    {
      Separate(buffers)
    }

    ghost function Contents(): Assembly
      reads this, buffers.Values
    {
      Assembly(ValuesOf(buffers), currentBufferSize)
    }

    constructor (timeout: nat, maxBufferSize: nat)
      ensures this.timeout == timeout && this.maxBufferSize == maxBufferSize
      ensures Valid() && buffers == map[] && Contents() == Assembly(map[], 0)
    {
      buffers, this.timeout, this.maxBufferSize, currentBufferSize := map[], timeout, maxBufferSize, 0;
    }

    method ProcessFragment(data: Bytes, now: Instant) returns (r: Option<Bytes>)
      requires Valid()
      modifies this, buffers.Values
      ensures Valid() && fresh(buffers.Values - old(buffers.Values))
      ensures exists room :: Processes(timeout, maxBufferSize, old(Contents()), data, now, room, Contents(), r)
    {
      ghost var before := Contents();
      Cleanup(now);
      ghost var cleaned := Contents();
      var header := DeserializeHeader(data);
      if header.None? {
        assert Processes(timeout, maxBufferSize, before, data, now, cleaned, Contents(), None);
        return None;
      }
      var h, payload := header.value, data[FRAGMENT_HEADER_SIZE..];
      if h.messageId in buffers && buffers[h.messageId].fragmentCount != h.fragmentCount {
        assert Processes(timeout, maxBufferSize, before, data, now, cleaned, Contents(), None);
        return None;
      }
      if currentBufferSize + |payload| > maxBufferSize { ExpireOldest(); }
      ghost var room := Contents();
      r := Store(h, payload, now);
      assert Processes(timeout, maxBufferSize, before, data, now, room, Contents(), r);
    }

    /** The message's buffer, new if it has none. */
    method Entry(h: FragmentHeader, now: Instant) returns (buffer: FragmentBuffer)
      requires Valid()
      modifies this`buffers
      ensures Valid() && buffers.Values <= old(buffers.Values) + {buffer}
          && (fresh(buffer) || buffer in old(buffers.Values))
      ensures h.messageId in buffers && buffers[h.messageId] == buffer
      ensures Contents() == Assembly(old(Contents()).buffers[h.messageId := BufferFor(old(Contents()), h, now)],
            currentBufferSize)
    {
      if h.messageId in buffers {
        buffer := buffers[h.messageId];
        assert Contents().buffers == Contents().buffers[h.messageId := buffer.Value()];
      } else {
        buffer := new FragmentBuffer(h.fragmentCount, now);
        ghost var before := Contents().buffers;
        buffers := buffers[h.messageId := buffer];
        assert Contents().buffers == before[h.messageId := buffer.Value()];
      }
    }

    /** The end of processing: the insert and the completion. */
    method Store(h: FragmentHeader, payload: Bytes, now: Instant) returns (r: Option<Bytes>)
      requires Valid()
      modifies this, buffers.Values
      ensures Valid() && fresh(buffers.Values - old(buffers.Values))
      ensures (Contents(), r) == Stored(old(Contents()), h, payload, now)
    {
      hide Inserted, Assembled, BufferFor, IsComplete, Separate, ValuesOf, Stored, SaturatingSub;
      ghost var room := Contents();
      StoredParts(room, h, payload, now);
      var buffer := Entry(h, now);
      currentBufferSize := currentBufferSize + |payload|;
      var complete := InsertInto(buffer, h.messageId, h.fragmentIndex, payload);
      if complete {
        r := buffer.Assemble();
        RemoveCompleted(h.messageId, buffer.totalSize);
      } else {
        r := None;
      }
    }

    method RemoveCompleted(id: u32, totalSize: nat)
      requires Valid()
      modifies this
      ensures Valid() && buffers.Values <= old(buffers.Values)
      ensures Contents() == Assembly(old(Contents()).buffers - {id}, SaturatingSub(old(currentBufferSize), totalSize))
    {
      Without(buffers, id);
      hide ValuesOf, Separate, SaturatingSub;
      buffers := buffers - {id};
      currentBufferSize := SaturatingSub(currentBufferSize, totalSize);
    }

    /** Inserts into one buffer of the map and leaves the others as they are. */
    method InsertInto(buffer: FragmentBuffer, id: u32, index: u8, payload: Bytes) returns (complete: bool)
      requires Valid() && id in buffers && buffers[id] == buffer
      modifies buffer
      ensures Valid()
      ensures var filled := Inserted(old(Contents()).buffers[id], index, payload);
        && buffer.Value() == filled && Contents() == old(Contents()).(buffers := old(Contents()).buffers[id := filled])
        && complete == (index < filled.fragmentCount && IsComplete(filled))
    {
      hide Inserted, IsComplete;
      ghost var before := Contents().buffers;
      complete := buffer.Insert(index, payload);
      assert forall k :: k in buffers && k != id ==> buffers[k].Value() == before[k];
      assert Contents().buffers == before[id := buffer.Value()];
    }

    /** Drops the buffers that have waited too long. */
    method Cleanup(now: Instant)
      requires Valid()
      modifies this
      ensures Valid() && buffers.Values <= old(buffers.Values)
      ensures Contents() == Cleaned(timeout, now, old(Contents()))
    {
      var live, removedSize := Retain(now);
      hide Held, ValuesOf, Separate, Live;
      buffers := live;
      currentBufferSize := SaturatingSub(currentBufferSize, removedSize);
    }

    /** The buffers to keep, and the bytes of those to drop. */
    method Retain(now: Instant) returns (live: map<u32, FragmentBuffer>, removedSize: nat)
      requires Separate(buffers)
      ensures Separate(live) && live.Values <= buffers.Values
      ensures ValuesOf(live) == Live(timeout, now, ValuesOf(buffers))
      ensures removedSize == Held(ValuesOf(buffers) - live.Keys)
    {
      hide *;
      ghost var before := ValuesOf(buffers);
      live, removedSize := buffers, 0;
      var left := buffers.Keys;
      SiftStarts(timeout, now, before);
      while left != {}
        invariant left <= live.Keys && live.Values <= buffers.Values && Separate(live)
        invariant ValuesOf(live) == Sifted(timeout, now, before, left) && removedSize == Held(before - live.Keys)
        decreases |left|
      {
        var k :| k in left;
        assert left - {k} + {k} == left;
        left := left - {k};
        SiftStep(timeout, now, before, ValuesOf(live), left, k);
        ValueAt(live, k);
        Without(live, k);
        if Elapsed(now, live[k].createdAt) >= timeout {
          removedSize := removedSize + live[k].totalSize;
          live := live - {k};
        }
      }
      SiftEnds(timeout, now, before);
    }

    method ExpireOldest()
      requires Valid()
      modifies this
      ensures Valid() && buffers.Values <= old(buffers.Values)
      ensures ExpiresOldest(old(Contents()), Contents())
    {
      if buffers == map[] { return; }
      var oldest := FindOldest();
      ValueAt(buffers, oldest);
      Without(buffers, oldest);
      hide IsOldest, ValuesOf, Separate;
      ghost var before := Contents();
      currentBufferSize := SaturatingSub(currentBufferSize, buffers[oldest].totalSize);
      buffers := buffers - {oldest};
      assert Contents() == Dropped(before, oldest);
    }

    method FindOldest() returns (oldest: u32)
      requires buffers != map[]
      ensures IsOldest(Contents().buffers, oldest)
    {
      oldest :| oldest in buffers;
      var left := buffers.Keys - {oldest};
      while left != {}
        invariant left <= buffers.Keys && oldest in buffers
        invariant forall k :: k in buffers.Keys - left ==> buffers[oldest].createdAt <= buffers[k].createdAt
        decreases |left|
      {
        var k :| k in left;
        left := left - {k};
        if buffers[k].createdAt < buffers[oldest].createdAt { oldest := k; }
      }
    }
  }

  /** Storing, with the entry made first and the fragment put in it second. */
  lemma StoredParts(room: Assembly, h: FragmentHeader, payload: Bytes, now: Instant)
    ensures
      var id, found := h.messageId, room.buffers[h.messageId := BufferFor(room, h, now)];
      var b := Inserted(found[id], h.fragmentIndex, payload);
      var after, current := found[id := b], room.current + |payload|;
      Stored(room, h, payload, now)
        == if h.fragmentIndex < b.fragmentCount && IsComplete(b)
           then (Assembly(after - {id}, SaturatingSub(current, b.totalSize)), Assembled(b))
           else (Assembly(after, current), None)
  {
    hide BufferFor, Inserted, IsComplete, Assembled;
    var id, found := h.messageId, room.buffers[h.messageId := BufferFor(room, h, now)];
    var b := Inserted(found[id], h.fragmentIndex, payload);
    assert found[id := b] == room.buffers[id := b] && found[id := b] - {id} == room.buffers - {id};
  }

  lemma SiftEnds(timeout: nat, now: Instant, buffers: map<u32, Partial>)
    ensures Sifted(timeout, now, buffers, {}) == Live(timeout, now, buffers)
  {
  }

  lemma SiftStarts(timeout: nat, now: Instant, buffers: map<u32, Partial>)
    ensures Sifted(timeout, now, buffers, buffers.Keys) == buffers && Held(buffers - buffers.Keys) == 0
  {
    assert buffers - buffers.Keys == map[];
  }

  /** What cleaning up keeps once it has looked at all but `left`. */
  function Sifted(timeout: nat, now: Instant, buffers: map<u32, Partial>, left: set<u32>): map<u32, Partial> {
    map k | k in buffers && (k in left || Elapsed(now, buffers[k].createdAt) < timeout) :: buffers[k]
  }

  lemma SiftStep(timeout: nat, now: Instant, buffers: map<u32, Partial>, live: map<u32, Partial>,
                 left: set<u32>, k: u32)
    requires k !in left && left + {k} <= live.Keys && live == Sifted(timeout, now, buffers, left + {k})
    ensures k in buffers && k in live && live[k] == buffers[k]
    ensures if Elapsed(now, buffers[k].createdAt) >= timeout
            then live - {k} == Sifted(timeout, now, buffers, left)
                 && Held(buffers - (live - {k}).Keys) == Held(buffers - live.Keys) + buffers[k].totalSize
            else live == Sifted(timeout, now, buffers, left)
  {
    if Elapsed(now, buffers[k].createdAt) >= timeout {
      var gone := buffers - (live - {k}).Keys;
      HeldWithout(gone, k);
      assert gone - {k} == buffers - live.Keys;
    }
  }
}
