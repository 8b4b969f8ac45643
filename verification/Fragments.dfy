/** Cutting a message into fragments, and the six-byte header each one carries. */
module Fragments {
  import opened Wrappers

  const FRAGMENT_HEADER_SIZE := 6
  const MAX_FRAGMENT_COUNT := 255

  datatype FragmentError = TooManyFragments

  datatype FragmentHeader = FragmentHeader(messageId: u32, fragmentIndex: u8, fragmentCount: u8)

  /** Four bytes, most significant first: `u32::from_be_bytes`, and back. */
  function FromBigEndian(a: int, b: int, c: int, d: int): int { ((a * 0x100 + b) * 0x100 + c) * 0x100 + d }

  function ToBigEndian(n: u32): (s: Bytes)
    ensures |s| == 4
  {
    [n / 0x100 / 0x100 / 0x100, n / 0x100 / 0x100 % 0x100, n / 0x100 % 0x100, n % 0x100]
  }

  function SerializeHeader(h: FragmentHeader): (s: Bytes)
    ensures |s| == FRAGMENT_HEADER_SIZE
  {
    ToBigEndian(h.messageId) + [h.fragmentIndex, h.fragmentCount]
  }

  function DeserializeHeader(data: Bytes): Option<FragmentHeader> {
    if |data| < FRAGMENT_HEADER_SIZE then None
    else Some(FragmentHeader(FromBigEndian(data[0], data[1], data[2], data[3]), data[4], data[5]))
  }

  lemma FourBytes(n: u32)
    ensures var s := ToBigEndian(n); FromBigEndian(s[0], s[1], s[2], s[3]) == n
  {
  }

  lemma BytesOf(a: u8, b: u8, c: u8, d: u8)
    ensures ToBigEndian(FromBigEndian(a, b, c, d)) == [a, b, c, d]
  {
    var n := FromBigEndian(a, b, c, d);
    assert n / 0x100 == (a * 0x100 + b) * 0x100 + c;
    assert n / 0x100 / 0x100 == a * 0x100 + b;
  }

  /** A header and what follows it come apart as they were put together. */
  lemma HeaderRoundTrip(h: FragmentHeader, payload: Bytes)
    ensures DeserializeHeader(SerializeHeader(h) + payload) == Some(h)
    ensures (SerializeHeader(h) + payload)[FRAGMENT_HEADER_SIZE..] == payload
  {
    FourBytes(h.messageId);
    hide FromBigEndian, ToBigEndian;
  }

  /** Six bytes are a header in one way only. */
  lemma HeaderIsItsBytes(data: Bytes)
    requires |data| >= FRAGMENT_HEADER_SIZE
    ensures data == SerializeHeader(DeserializeHeader(data).value) + data[FRAGMENT_HEADER_SIZE..]
  {
    BytesOf(data[0], data[1], data[2], data[3]);
    hide FromBigEndian, ToBigEndian;
    assert SerializeHeader(DeserializeHeader(data).value) == data[..FRAGMENT_HEADER_SIZE];
  }

  // ---------- pieces of a message ----------

  /** `data.len().div_ceil(size)` */
  function DivCeil(n: nat, size: nat): nat
    requires size > 0
  {
    (n + size - 1) / size
  }

  function PieceEnd(data: Bytes, size: nat, i: nat): nat {
    if (i + 1) * size <= |data| then (i + 1) * size else |data|
  }

  /** The message ends within its last piece, and not before. */
  lemma PieceBounds(data: Bytes, size: nat, i: nat)
    requires size > 0 && i < DivCeil(|data|, size)
    ensures i * size < PieceEnd(data, size, i) <= |data|
    ensures i + 1 == DivCeil(|data|, size) <==> PieceEnd(data, size, i) == |data|
    ensures i + 1 < DivCeil(|data|, size) ==> PieceEnd(data, size, i) == (i + 1) * size
  {
    var n := DivCeil(|data|, size);
    DivisionBounds(|data| + size - 1, size);
    Times(i + 1, n, size);
    Times(i + 2, n, size);
    assert (i + 1) * size == i * size + size && (i + 2) * size == (i + 1) * size + size;
    assert n * size == size * n;
  }

  lemma DivisionBounds(n: nat, size: nat)
    requires size > 0
    ensures size * (n / size) <= n < size * (n / size) + size
  {
  }

  lemma Times(a: nat, b: nat, size: nat)
    ensures a <= b ==> a * size <= b * size
  {
  }

  function Piece(data: Bytes, size: nat, i: nat): Bytes
    requires size > 0 && i < DivCeil(|data|, size)
  {
    PieceBounds(data, size, i);
    data[i * size..PieceEnd(data, size, i)]
  }

  function FragmentAt(id: u32, data: Bytes, size: nat, i: nat): Bytes
    requires size > 0 && i < DivCeil(|data|, size) <= MAX_FRAGMENT_COUNT
  {
    SerializeHeader(FragmentHeader(id, i, DivCeil(|data|, size))) + Piece(data, size, i)
  }

  /** The first `n` pieces put together. */
  function Joined(data: Bytes, size: nat, n: nat): Bytes
    requires size > 0 && n <= DivCeil(|data|, size)
  {
    if n == 0 then [] else Joined(data, size, n - 1) + Piece(data, size, n - 1)
  }

  lemma {:induction false} JoinedIsPrefix(data: Bytes, size: nat, n: nat)
    requires size > 0 && n <= DivCeil(|data|, size)
    ensures Joined(data, size, n) == data[..if n == 0 then 0 else PieceEnd(data, size, n - 1)]
  {
    if n > 0 {
      JoinedIsPrefix(data, size, n - 1);
      PieceBounds(data, size, n - 1);
      if n > 1 { PieceBounds(data, size, n - 2); }
    }
  }

  /** All the pieces put together are the message. */
  lemma PiecesMakeMessage(data: Bytes, size: nat)
    requires size > 0
    ensures Joined(data, size, DivCeil(|data|, size)) == data
  {
    var n := DivCeil(|data|, size);
    JoinedIsPrefix(data, size, n);
    if n > 0 { PieceBounds(data, size, n - 1); } else { DivisionBounds(|data| + size - 1, size); }
  }

  method FragmentMessage(messageId: u32, data: Bytes, maxFragmentPayload: nat)
    returns (r: Result<seq<Bytes>, FragmentError>)
    ensures data == [] || maxFragmentPayload == 0 ==> r == Success([])
    ensures data != [] && maxFragmentPayload > 0 ==>
      var count := DivCeil(|data|, maxFragmentPayload);
      if count > 255 then r == Failure(TooManyFragments)
      else
        && r.Success? && |r.value| == count >= 1
        && forall i :: 0 <= i < count ==> IsFragment(messageId, data, maxFragmentPayload, i, r.value[i])
  {
    if data == [] || maxFragmentPayload == 0 { return Success([]); }
    var fragmentCount := DivCeil(|data|, maxFragmentPayload);
    DivisionBounds(|data| + maxFragmentPayload - 1, maxFragmentPayload);
    if fragmentCount > MAX_FRAGMENT_COUNT { return Failure(TooManyFragments); }
    var fragments: seq<Bytes> := [];
    for i := 0 to fragmentCount
      invariant |fragments| == i
      invariant forall j :: 0 <= j < i ==> IsFragment(messageId, data, maxFragmentPayload, j, fragments[j])
    {
      hide *;
      NextFragment(messageId, data, maxFragmentPayload, i);
      var start := i * maxFragmentPayload;
      var end := if (i + 1) * maxFragmentPayload <= |data| then (i + 1) * maxFragmentPayload else |data|;
      var header := FragmentHeader(messageId, i, fragmentCount);
      fragments := fragments + [SerializeHeader(header) + data[start..end]];
    }
    return Success(fragments);
  }

  predicate IsFragment(id: u32, data: Bytes, size: nat, i: nat, fragment: Bytes)
    requires size > 0 && i < DivCeil(|data|, size) <= MAX_FRAGMENT_COUNT
  {
    && fragment == FragmentAt(id, data, size, i)
    && FRAGMENT_HEADER_SIZE < |fragment| <= FRAGMENT_HEADER_SIZE + size
  }

  lemma NextFragment(id: u32, data: Bytes, size: nat, i: nat)
    requires size > 0 && i < DivCeil(|data|, size) <= MAX_FRAGMENT_COUNT
    ensures
      var start, end := i * size, if (i + 1) * size <= |data| then (i + 1) * size else |data|;
      && start <= end <= |data|
      && IsFragment(id, data, size, i, SerializeHeader(FragmentHeader(id, i, DivCeil(|data|, size))) + data[start..end])
  {
    PieceBounds(data, size, i);
    hide DivCeil, SerializeHeader;
  }
}
