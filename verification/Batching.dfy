/** Packing small messages into datagrams: the greedy packer, its inverse, and
    why no other order-preserving packing needs fewer datagrams. */
module Batching {
  import opened Wrappers

  const BATCH_HEADER_SIZE := 1
  const BATCH_LENGTH_SIZE := 2
  const MAX_BATCH_MESSAGES := 255

  type Group = seq<Bytes>

  // ---------- wire format ----------

  /** A length prefix, which keeps only sixteen bits of the length. */
  function LengthPrefix(n: nat): Bytes { [(n / 256) % 256, n % 256] }

  function Body(group: Group): Bytes {
    if group == [] then []
    else Body(group[..|group| - 1]) + LengthPrefix(|group[|group| - 1]|) + group[|group| - 1]
  }

  function Batch(group: Group): Bytes
    requires |group| <= MAX_BATCH_MESSAGES
  {
    [|group|] + Body(group)
  }

  /** Bytes a group takes up in a datagram, header included. */
  function Size(group: Group): nat {
    if group == [] then BATCH_HEADER_SIZE
    else Size(group[..|group| - 1]) + BATCH_LENGTH_SIZE + |group[|group| - 1]|
  }

  // ---------- packing ----------

  /** What may travel together: one message of any size, or up to 255 that fit. */
  predicate Fits(group: Group, maxSize: nat) {
    1 <= |group| <= MAX_BATCH_MESSAGES && (|group| >= 2 ==> Size(group) <= maxSize)
  }

  /** The packer's groups so far and the group it is filling. */
  datatype Packer = Packer(done: seq<Group>, open: Group)

  function Closed(p: Packer): Packer { if p.open == [] then p else Packer(p.done + [p.open], []) }

  function Pushed(p: Packer, message: Bytes, maxSize: nat): Packer {
    var overflow := Size(p.open) + BATCH_LENGTH_SIZE + |message| > maxSize;
    var q := if overflow then Closed(p) else p;
    var r := Packer(q.done, q.open + [message]);
    if |r.open| == MAX_BATCH_MESSAGES then Closed(r) else r
  }

  function Packed(messages: seq<Bytes>, maxSize: nat): Packer {
    if messages == [] then Packer([], [])
    else Pushed(Packed(messages[..|messages| - 1], maxSize), messages[|messages| - 1], maxSize)
  }

  function Groups(messages: seq<Bytes>, maxSize: nat): seq<Group> { Closed(Packed(messages, maxSize)).done }

  function Batches(groups: seq<Group>): seq<Bytes>
    requires forall g :: g in groups ==> |g| <= MAX_BATCH_MESSAGES
  {
    seq(|groups|, i requires 0 <= i < |groups| => Batch(groups[i]))
  }

  /** What the packer's variables hold, in terms of its groups. */
  ghost predicate Emitting(p: Packer, batches: seq<Bytes>, body: Bytes, size: nat, count: nat) {
    && (forall g :: g in p.done ==> |g| <= MAX_BATCH_MESSAGES)
    && batches == Batches(p.done)
    && body == Body(p.open) && size == Size(p.open) && count == |p.open| <= MAX_BATCH_MESSAGES
  }

  function Opened(p: Packer, message: Bytes): Packer { Packer(p.done, p.open + [message]) }

  lemma EmitClosed(p: Packer, batches: seq<Bytes>, body: Bytes, size: nat, count: nat)
    requires Emitting(p, batches, body, size, count) && count > 0
    ensures count <= 255 && Emitting(Closed(p), batches + [[count] + body], [], BATCH_HEADER_SIZE, 0)
  {
    hide Body, Size;
    assert Batches(p.done + [p.open]) == Batches(p.done) + [Batch(p.open)];
    assert Body([]) == [] && Size([]) == BATCH_HEADER_SIZE by { EmptyGroup(); }
  }

  lemma EmptyGroup()
    ensures Body([]) == [] && Size([]) == BATCH_HEADER_SIZE
  {
  }

  lemma EmitOpened(p: Packer, batches: seq<Bytes>, body: Bytes, size: nat, count: nat, message: Bytes)
    requires Emitting(p, batches, body, size, count) && count < MAX_BATCH_MESSAGES
    ensures Emitting(Opened(p, message), batches, body + LengthPrefix(|message|) + message,
                     size + BATCH_LENGTH_SIZE + |message|, count + 1)
  {
    hide Batches, LengthPrefix;
    assert (p.open + [message])[..|p.open|] == p.open;
  }

  lemma PackedNext(messages: seq<Bytes>, i: nat, maxSize: nat)
    requires i < |messages|
    ensures
      var p, m := Packed(messages[..i], maxSize), messages[i];
      var q := if Size(p.open) + BATCH_LENGTH_SIZE + |m| > maxSize && p.open != [] then Closed(p) else p;
      var r := Opened(q, m);
      Packed(messages[..i + 1], maxSize) == if |r.open| == MAX_BATCH_MESSAGES then Closed(r) else r
  {
    assert messages[..i + 1][..i] == messages[..i];
    hide Packed, Size;
  }

  lemma {:induction false} OpenIsShort(messages: seq<Bytes>, maxSize: nat)
    ensures |Packed(messages, maxSize).open| < MAX_BATCH_MESSAGES
  {
    if messages != [] { OpenIsShort(messages[..|messages| - 1], maxSize); }
  }

  method BatchMessages(messages: seq<Bytes>, maxSize: nat) returns (batches: seq<Bytes>)
    ensures forall g :: g in Groups(messages, maxSize) ==> |g| <= MAX_BATCH_MESSAGES
    ensures batches == Batches(Groups(messages, maxSize))
  {
    batches := [];
    var currentBatch: Bytes := [];
    var currentSize: nat := BATCH_HEADER_SIZE;
    var msgCount: nat := 0;
    ghost var p := Packer([], []);
    assert Batches([]) == [] && messages[..0] == [];
    for i := 0 to |messages|
      invariant p == Packed(messages[..i], maxSize)
      invariant Emitting(p, batches, currentBatch, currentSize, msgCount)
    {
      PackedNext(messages, i, maxSize);
      OpenIsShort(messages[..i], maxSize);
      EmitIs(p, batches, currentBatch, currentSize, msgCount);
      hide *;
      var message := messages[i];
      var wireSize := BATCH_LENGTH_SIZE + |message|;
      if currentSize + wireSize > maxSize && msgCount > 0 {
        EmitClosed(p, batches, currentBatch, currentSize, msgCount);
        p := Closed(p);
        batches := batches + [[msgCount] + currentBatch];
        currentBatch, currentSize, msgCount := [], BATCH_HEADER_SIZE, 0;
      }
      EmitOpened(p, batches, currentBatch, currentSize, msgCount, message);
      p := Opened(p, message);
      EmitIs(p, batches, currentBatch + LengthPrefix(|message|) + message, currentSize + wireSize, msgCount + 1);
      currentBatch := currentBatch + LengthPrefix(|message|) + message;
      currentSize := currentSize + wireSize;
      msgCount := msgCount + 1;
      if msgCount == MAX_BATCH_MESSAGES {
        EmitClosed(p, batches, currentBatch, currentSize, msgCount);
        p := Closed(p);
        batches := batches + [[msgCount] + currentBatch];
        currentBatch, currentSize, msgCount := [], BATCH_HEADER_SIZE, 0;
      }
    }
    assert messages[..|messages|] == messages;
    if msgCount > 0 {
      EmitClosed(p, batches, currentBatch, currentSize, msgCount);
      batches := batches + [[msgCount] + currentBatch];
    }
  }

  lemma EmitIs(p: Packer, batches: seq<Bytes>, body: Bytes, size: nat, count: nat)
    requires Emitting(p, batches, body, size, count)
    ensures size == Size(p.open) && count == |p.open| <= MAX_BATCH_MESSAGES
  {
  }

  // ---------- the packing is right ----------

  function Flat(groups: seq<Group>): seq<Bytes> {
    if groups == [] then [] else Flat(groups[..|groups| - 1]) + groups[|groups| - 1]
  }

  ghost predicate AllFit(groups: seq<Group>, maxSize: nat) { forall g :: g in groups ==> Fits(g, maxSize) }

  lemma FlatSnoc(groups: seq<Group>, g: Group)
    ensures Flat(groups + [g]) == Flat(groups) + g
  {
    assert (groups + [g])[..|groups|] == groups;
  }

  /** The packer has the messages in order, in groups within the rules. */
  ghost predicate Right(p: Packer, messages: seq<Bytes>, maxSize: nat) {
    Flat(p.done) + p.open == messages && AllFit(p.done, maxSize) && (p.open != [] ==> Fits(p.open, maxSize))
  }

  lemma ClosingIsRight(p: Packer, messages: seq<Bytes>, maxSize: nat)
    requires Right(p, messages, maxSize)
    ensures Right(Closed(p), messages, maxSize)
  {
    hide Fits;
    FlatSnoc(p.done, p.open);
    assert Flat(Closed(p).done) + Closed(p).open == messages;
  }

  lemma OpeningIsRight(p: Packer, messages: seq<Bytes>, m: Bytes, maxSize: nat)
    requires Right(p, messages, maxSize) && |p.open| < MAX_BATCH_MESSAGES
    requires p.open == [] || Size(p.open) + BATCH_LENGTH_SIZE + |m| <= maxSize
    ensures Right(Opened(p, m), messages + [m], maxSize)
  {
    assert (p.open + [m])[..|p.open|] == p.open;
    assert Flat(p.done) + (p.open + [m]) == (Flat(p.done) + p.open) + [m];
  }

  lemma PushingIsRight(p: Packer, messages: seq<Bytes>, m: Bytes, maxSize: nat)
    requires Right(p, messages, maxSize) && |p.open| < MAX_BATCH_MESSAGES
    ensures Right(Pushed(p, m, maxSize), messages + [m], maxSize)
  {
    hide Right, Size;
    ClosingIsRight(p, messages, maxSize);
    var q := if Size(p.open) + BATCH_LENGTH_SIZE + |m| > maxSize then Closed(p) else p;
    OpeningIsRight(q, messages, m, maxSize);
    ClosingIsRight(Opened(q, m), messages + [m], maxSize);
  }

  lemma {:induction false} PackedIsRight(messages: seq<Bytes>, maxSize: nat)
    ensures Right(Packed(messages, maxSize), messages, maxSize)
  {
    if messages == [] {
      assert Right(Packer([], []), [], maxSize);
    } else {
      var front, m := messages[..|messages| - 1], messages[|messages| - 1];
      hide Right, Pushed;
      PackedIsRight(front, maxSize);
      OpenIsShort(front, maxSize);
      PushingIsRight(Packed(front, maxSize), front, m, maxSize);
      assert front + [m] == messages;
    }
  }

  /** In order, nothing lost, and every datagram within the rules. */
  lemma GroupsAreRight(messages: seq<Bytes>, maxSize: nat)
    ensures Flat(Groups(messages, maxSize)) == messages && AllFit(Groups(messages, maxSize), maxSize)
  {
    PackedIsRight(messages, maxSize);
    ClosingIsRight(Packed(messages, maxSize), messages, maxSize);
  }

  // ---------- no packing is smaller ----------

  function Count(p: Packer): nat { |p.done| + if p.open == [] then 0 else 1 }

  /** The length of the group filled last: a group is closed for good only when
      it is full. */
  function LastLength(p: Packer): nat { if p.open == [] then MAX_BATCH_MESSAGES else |p.open| }

  lemma {:induction false} SizeOfSuffix(a: Group, b: Group)
    ensures Size(b) <= Size(a + b)
  {
    if b == [] {
      SizeAtLeastHeader(a + b);
    } else {
      assert (a + b)[..|a + b| - 1] == a + b[..|b| - 1];
      SizeOfSuffix(a, b[..|b| - 1]);
    }
  }

  lemma {:induction false} SizeAtLeastHeader(g: Group)
    ensures Size(g) >= BATCH_HEADER_SIZE
  {
    if g != [] { SizeAtLeastHeader(g[..|g| - 1]); }
  }

  /** Of two ends of one list, the shorter takes up no more. */
  lemma SizeOfShorterEnd(whole: Group, long: Group, short: Group)
    requires |short| <= |long| <= |whole|
    requires long == whole[|whole| - |long|..] && short == whole[|whole| - |short|..]
    ensures Size(short) <= Size(long)
  {
    var k := |long| - |short|;
    assert long[..k] + short == long;
    SizeOfSuffix(long[..k], short);
  }

  /** A packing of a shorter list: the last message taken off again. */
  function Shortened(groups: seq<Group>): seq<Group>
    requires groups != [] && groups[|groups| - 1] != []
  {
    var n, last := |groups| - 1, groups[|groups| - 1];
    if |last| == 1 then groups[..n] else groups[..n] + [last[..|last| - 1]]
  }

  lemma ShortenedFits(groups: seq<Group>, messages: seq<Bytes>, maxSize: nat)
    requires groups != [] && AllFit(groups, maxSize) && Flat(groups) == messages
    ensures messages != [] && groups[|groups| - 1] != []
    ensures Flat(Shortened(groups)) == messages[..|messages| - 1] && AllFit(Shortened(groups), maxSize)
    ensures var last := groups[|groups| - 1]; |last| <= |messages| && last == messages[|messages| - |last|..]
  {
    var n, last := |groups| - 1, groups[|groups| - 1];
    assert Fits(last, maxSize);
    if |last| > 1 {
      FlatSnoc(groups[..n], last[..|last| - 1]);
      assert Size(last[..|last| - 1]) <= Size(last);
    }
  }

  lemma PushedCounts(p: Packer, m: Bytes, maxSize: nat)
    requires |p.open| < MAX_BATCH_MESSAGES
    ensures var q := Pushed(p, m, maxSize);
      if p.open == [] || Size(p.open) + BATCH_LENGTH_SIZE + |m| > maxSize
      then Count(q) == Count(p) + 1 && LastLength(q) == 1
      else Count(q) == Count(p) && LastLength(q) == LastLength(p) + 1
  {
    hide Size;
  }

  /** If another packing has its last message in a group at least as long as the
      packer's open one, the message fits the open one too. */
  lemma FitsOpenToo(messages: seq<Bytes>, m: Bytes, maxSize: nat, last: Group)
    requires Fits(last, maxSize) && 2 <= |last| <= |messages| + 1
    requires last == (messages + [m])[|messages| + 1 - |last|..]
    requires 0 < |Packed(messages, maxSize).open| < |last|
    ensures Size(Packed(messages, maxSize).open) + BATCH_LENGTH_SIZE + |m| <= maxSize
  {
    PackedIsRight(messages, maxSize);
    var open := Packed(messages, maxSize).open;
    hide Packed;
    var whole := messages + [m];
    assert (open + [m])[..|open|] == open;
    assert open + [m] == whole[|whole| - (|open| + 1)..];
    SizeOfShorterEnd(whole, last, open + [m]);
  }

  /** The greedy packer stays ahead of any other packing of the same messages:
      it has used no more datagrams, and where it has used as many, its last
      one is no fuller. */
  lemma {:induction false} GreedyStaysAhead(messages: seq<Bytes>, maxSize: nat, groups: seq<Group>)
    requires AllFit(groups, maxSize) && Flat(groups) == messages
    ensures var p := Packed(messages, maxSize);
      && Count(p) <= |groups|
      && (groups != [] && Count(p) == |groups| ==> LastLength(p) <= |groups[|groups| - 1]|)
    decreases |messages|
  {
    if groups != [] {
      var last := groups[|groups| - 1];
      assert Fits(last, maxSize);
      hide Pushed, Size, AllFit, Flat;
      ShortenedFits(groups, messages, maxSize);
      var front, m := messages[..|messages| - 1], messages[|messages| - 1];
      assert front + [m] == messages;
      GreedyStaysAhead(front, maxSize, Shortened(groups));
      OpenIsShort(front, maxSize);
      var p := Packed(front, maxSize);
      PushedCounts(p, m, maxSize);
      if |last| >= 2 && Count(p) == |groups| && p.open != [] {
        FitsOpenToo(front, m, maxSize, last);
      }
    }
  }

  /** No order-preserving packing within the rules uses fewer datagrams. */
  lemma NoPackingIsSmaller(messages: seq<Bytes>, maxSize: nat, groups: seq<Group>)
    requires AllFit(groups, maxSize) && Flat(groups) == messages
    ensures |Groups(messages, maxSize)| <= |groups|
  {
    GreedyStaysAhead(messages, maxSize, groups);
  }

  // ---------- unpacking ----------

  /** Reads `count` messages; what follows them is ignored. */
  function Parse(data: Bytes, count: nat): (messages: Option<seq<Bytes>>)
    ensures messages.Some? ==> |messages.value| == count
    decreases count
  {
    if count == 0 then Some([])
    else if |data| < BATCH_LENGTH_SIZE then None
    else
      var length := 256 * (data[0] as int) + data[1];
      if |data| < BATCH_LENGTH_SIZE + length then None
      else
        match Parse(data[BATCH_LENGTH_SIZE + length..], count - 1)
        case None => None
        case Some(rest) => Some([data[BATCH_LENGTH_SIZE..BATCH_LENGTH_SIZE + length]] + rest)
  }

  function Unbatch(data: Bytes): Option<seq<Bytes>> {
    if data == [] then None else Parse(data[1..], data[0])
  }

  function Prepended(front: seq<Bytes>, rest: Option<seq<Bytes>>): Option<seq<Bytes>> {
    match rest
    case None => None
    case Some(s) => Some(front + s)
  }

  method UnbatchMessages(data: Bytes) returns (messages: Option<seq<Bytes>>)
    ensures messages == Unbatch(data)
  {
    hide *;
    UnbatchStart(data);
    if data == [] { return None; }
    var msgCount := data[0];
    var found: seq<Bytes> := [];
    var offset: nat := 1;
    for i := 0 to msgCount
      invariant offset <= |data|
      invariant Unbatch(data) == Prepended(found, Parse(data[offset..], msgCount - i))
    {
      ParseNext(data, offset, msgCount - i, found);
      if offset + 2 > |data| { return None; }
      var length: nat := 256 * (data[offset] as int) + data[offset + 1];
      offset := offset + 2;
      if offset + length > |data| { return None; }
      found := found + [data[offset..offset + length]];
      offset := offset + length;
    }
    ParseEnd(data[offset..], found);
    return Some(found);
  }

  lemma UnbatchStart(data: Bytes)
    ensures Unbatch(data) == if data == [] then None else Prepended([], Parse(data[1..], data[0]))
  {
    hide Parse;
    if data != [] && Unbatch(data).Some? { assert [] + Unbatch(data).value == Unbatch(data).value; }
  }

  lemma ParseEnd(data: Bytes, found: seq<Bytes>)
    ensures Prepended(found, Parse(data, 0)) == Some(found)
  {
    assert found + [] == found;
  }

  lemma ParseNext(data: Bytes, offset: nat, count: nat, found: seq<Bytes>)
    requires offset <= |data| && count > 0
    ensures var here := Prepended(found, Parse(data[offset..], count));
      if offset + 2 > |data| then here == None
      else
        var length := 256 * (data[offset] as int) + data[offset + 1];
        if offset + 2 + length > |data| then here == None
        else here == Prepended(found + [data[offset + 2..offset + 2 + length]],
            Parse(data[offset + 2 + length..], count - 1))
  {
    var rest := data[offset..];
    ParseOne(rest, count);
    hide Parse, Prepended;
    NoneStaysNone(found);
    if offset + 2 <= |data| {
      var length := 256 * (data[offset] as int) + data[offset + 1];
      if offset + 2 + length <= |data| {
        assert rest[2 + length..] == data[offset + 2 + length..];
        assert rest[2..2 + length] == data[offset + 2..offset + 2 + length];
        PrependedTwice(found, rest[2..2 + length], Parse(rest[2 + length..], count - 1));
      }
    }
  }

  lemma ParseOne(data: Bytes, count: nat)
    requires count > 0
    ensures
      if |data| < 2 then Parse(data, count) == None
      else
        var length := 256 * (data[0] as int) + data[1];
        Parse(data, count)
          == if 2 + length > |data|
            then None else Prepended([data[2..2 + length]], Parse(data[2 + length..], count - 1))
  {
  }

  lemma NoneStaysNone(found: seq<Bytes>)
    ensures Prepended(found, None) == None
  {
  }

  lemma PrependedTwice(found: seq<Bytes>, m: Bytes, rest: Option<seq<Bytes>>)
    ensures Prepended(found, Prepended([m], rest)) == Prepended(found + [m], rest)
  {
    if rest.Some? { assert found + ([m] + rest.value) == found + [m] + rest.value; }
  }

  // ---------- there and back ----------

  predicate Short(message: Bytes) { |message| <= 65535 }

  ghost predicate AllShort(messages: seq<Bytes>) { forall m :: m in messages ==> Short(m) }

  lemma {:induction false} BodySplit(a: Group, b: Group)
    ensures Body(a + b) == Body(a) + Body(b)
  {
    hide LengthPrefix;
    if b == [] {
      assert a + b == a;
    } else {
      assert (a + b)[..|a + b| - 1] == a + b[..|b| - 1];
      BodySplit(a, b[..|b| - 1]);
    }
  }

  lemma LengthRoundTrip(n: nat)
    ensures var b := LengthPrefix(n); 256 * (b[0] as int) + b[1] == n % 65536
  {
  }

  lemma OneMessageBody(m: Bytes, rest: Bytes)
    ensures var data := Body([m]) + rest; var length := |m| % 65536;
      && |data| >= 2 + length && 256 * (data[0] as int) + data[1] == length
      && (Short(m) ==> data[2..2 + length] == m && data[2 + length..] == rest)
  {
    LengthRoundTrip(|m|);
    assert Body([m]) == LengthPrefix(|m|) + m by {
      assert [m][..0] == [];
      assert [] + LengthPrefix(|m|) == LengthPrefix(|m|);
    }
  }

  /** A group comes back from its own bytes exactly when every length fits its
      prefix. */
  lemma {:induction false} ParseOwnBody(group: Group)
    ensures Parse(Body(group), |group|) == Some(group) <==> AllShort(group)
    decreases |group|
  {
    if group != [] {
      var m, rest := group[0], group[1..];
      assert group == [m] + rest;
      BodySplit([m], rest);
      OneMessageBody(m, Body(rest));
      ParseOwnBody(rest);
      hide Body;
      if Short(m) {
        assert AllShort(group) <==> AllShort(rest);
      } else {
        assert m in group;
      }
    }
  }

  /** Unpacks every datagram in turn. */
  function UnbatchAll(batches: seq<Bytes>): Option<seq<seq<Bytes>>> {
    if batches == [] then Some([])
    else
      match (UnbatchAll(batches[..|batches| - 1]), Unbatch(batches[|batches| - 1]))
      case (Some(front), Some(last)) => Some(front + [last])
      case _ => None
  }

  ghost predicate AllGroupsShort(groups: seq<Group>) { forall g :: g in groups ==> AllShort(g) }

  lemma AllGroupsShortSnoc(groups: seq<Group>, g: Group)
    ensures AllGroupsShort(groups + [g]) <==> AllGroupsShort(groups) && AllShort(g)
  {
    hide AllShort;
    assert g in groups + [g];
    assert forall h :: h in groups ==> h in groups + [g];
  }

  lemma UnbatchGroup(group: Group)
    requires 1 <= |group| <= MAX_BATCH_MESSAGES
    ensures Unbatch(Batch(group)) == Some(group) <==> AllShort(group)
    ensures Unbatch(Batch(group)).Some? ==> |Unbatch(Batch(group)).value| == |group|
  {
    ParseOwnBody(group);
    hide Parse, Body, AllShort;
    assert Batch(group)[1..] == Body(group);
  }

  /** As many groups, of the same lengths. */
  ghost predicate SameShape(a: seq<Group>, b: seq<Group>) {
    |a| == |b| && forall i :: 0 <= i < |a| ==> |a[i]| == |b[i]|
  }

  lemma UnbatchAllSnoc(batches: seq<Bytes>, b: Bytes)
    ensures UnbatchAll(batches + [b]) ==
      match (UnbatchAll(batches), Unbatch(b))
      case (Some(front), Some(last)) => Some(front + [last])
      case _ => None
  {
    hide Unbatch;
    assert (batches + [b])[..|batches|] == batches;
  }

  lemma SnocsEqual<T>(a: seq<T>, x: T, b: seq<T>, y: T)
    ensures a + [x] == b + [y] <==> a == b && x == y
  {
    if a + [x] == b + [y] {
      assert |a| == |a + [x]| - 1 == |b|;
      assert a == (a + [x])[..|a|] && b == (b + [y])[..|b|];
      assert x == (a + [x])[|a|] && y == (b + [y])[|b|];
    }
  }

  lemma {:induction false} UnbatchAllGroups(groups: seq<Group>)
    requires forall g :: g in groups ==> 1 <= |g| <= MAX_BATCH_MESSAGES
    ensures UnbatchAll(Batches(groups)) == Some(groups) <==> AllGroupsShort(groups)
    ensures UnbatchAll(Batches(groups)).Some? ==> SameShape(UnbatchAll(Batches(groups)).value, groups)
  {
    if groups != [] {
      var front, last := groups[..|groups| - 1], groups[|groups| - 1];
      assert groups == front + [last];
      BatchesSnoc(groups);
      hide Unbatch, Batch, Batches, AllShort, AllGroupsShort, UnbatchAll;
      UnbatchAllGroups(front);
      UnbatchGroup(last);
      UnbatchAllSnoc(Batches(front), Batch(last));
      AllGroupsShortSnoc(front, last);
      if UnbatchAll(Batches(front)).Some? && Unbatch(Batch(last)).Some? {
        SnocsEqual(UnbatchAll(Batches(front)).value, Unbatch(Batch(last)).value, front, last);
      }
    }
  }

  lemma BatchesSnoc(groups: seq<Group>)
    requires groups != [] && forall g :: g in groups ==> |g| <= MAX_BATCH_MESSAGES
    ensures var k := |groups| - 1; Batches(groups) == Batches(groups[..k]) + [Batch(groups[k])]
  {
    hide Batch;
  }

  lemma {:induction false} FlatDetermines(a: seq<Group>, b: seq<Group>)
    requires SameShape(a, b) && Flat(a) == Flat(b)
    ensures a == b
  {
    if a != [] {
      var n := |a| - 1;
      var p, q := Flat(a[..n]), Flat(b[..n]);
      assert |p| + |a[n]| == |q| + |b[n]|;
      assert p == Flat(a)[..|p|] && q == Flat(b)[..|q|];
      assert a[n] == Flat(a)[|p|..] && b[n] == Flat(b)[|q|..];
      FlatDetermines(a[..n], b[..n]);
      assert a == a[..n] + [a[n]] && b == b[..n] + [b[n]];
    }
  }

  lemma AllShortAppend(a: seq<Bytes>, b: seq<Bytes>)
    ensures AllShort(a + b) <==> AllShort(a) && AllShort(b)
  {
    assert forall m :: m in a + b <==> m in a || m in b;
  }

  lemma {:induction false} FlatMembers(groups: seq<Group>)
    ensures AllShort(Flat(groups)) <==> AllGroupsShort(groups)
  {
    if groups != [] {
      var front, last := groups[..|groups| - 1], groups[|groups| - 1];
      hide AllShort, AllGroupsShort;
      FlatMembers(front);
      assert groups == front + [last];
      AllGroupsShortSnoc(front, last);
      AllShortAppend(Flat(front), last);
    }
  }

  /** Unpacking every datagram in order gives back the messages, exactly when
      each is at most 65535 bytes long; a longer one loses its length. */
  lemma BatchRoundTrip(messages: seq<Bytes>, maxSize: nat)
    ensures forall g :: g in Groups(messages, maxSize) ==> |g| <= MAX_BATCH_MESSAGES
    ensures var all := UnbatchAll(Batches(Groups(messages, maxSize)));
            (all.Some? && Flat(all.value) == messages) <==> AllShort(messages)
  {
    var groups := Groups(messages, maxSize);
    GroupsAreRight(messages, maxSize);
    forall g | g in groups
      ensures 1 <= |g| <= MAX_BATCH_MESSAGES
    {
      assert Fits(g, maxSize);
    }
    hide Groups, AllFit, Fits;
    UnbatchAllGroups(groups);
    FlatMembers(groups);
    var all := UnbatchAll(Batches(groups));
    hide UnbatchAll, Flat, AllShort;
    if all.Some? && Flat(all.value) == messages { FlatDetermines(all.value, groups); }
  }
}
