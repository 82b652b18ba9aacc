/** The datagram format in plain bytes and numbers, and the datagrams a sender emits in these terms. */
module Format {
  import opened Basics
  import opened Wire
  import opened Fragmentation

  // ------------------------------------------------------------- reference

  /** The unsigned number in the four bytes from offset `at` on, the lowest byte first. */
  function Number(d: bytes, at: nat): (r: nat)
    requires at + 4 <= |d|
    ensures r < 0x1_0000_0000
  {
    var b0: int, b1: int, b2: int, b3: int := d[at], d[at + 1], d[at + 2], d[at + 3];
    b0 + 0x100 * b1 + 0x1_0000 * b2 + 0x100_0000 * b3
  }

  /** The datagram starts with a header of version 5 with these fields. */
  predicate HasHeader(d: bytes, magic: bytes, kind: nat, id: nat, num: nat, len: nat) {
    && |d| >= 24
    && d[..4] == magic
    && d[4] == 5 && d[5] == 0 && d[6] == 0 && d[7] == 0
    && Number(d, 8) == kind
    && Number(d, 12) == id
    && Number(d, 16) == num
    && Number(d, 20) == len
  }

  /** The announced number of fragments: the source's expression in 32-bit unsigned arithmetic. */
  function CountExpression(total: nat, p: nat): nat
    requires p > 0
  {
    (total + (p - 1)) % 0x1_0000_0000 / p
  }

  // ------------------------------------------------------------ the header

  lemma FieldIsNumber(d: bytes, at: nat)
    requires at + 4 <= |d|
    ensures Field(d, at) == Number(d, at)
  {
  }

  lemma HeaderLayout(magic: bytes, kind: uint32, id: uint32, num: uint32, len: uint32, rest: bytes)
    requires |magic| == 4
    ensures var d := EncodeHeader(magic, kind, id, num, len) + rest;
      HasHeader(d, magic, kind, id, num, len) && d[24..] == rest
  {
    var d := EncodeHeader(magic, kind, id, num, len) + rest;
    FieldsOfHeader(magic, kind, id, num, len, rest);
    FieldIsNumber(d, 8);
    FieldIsNumber(d, 12);
    FieldIsNumber(d, 16);
    FieldIsNumber(d, 20);
    assert d[5] == 0 && d[6] == 0 && d[7] == 0;
  }

  lemma SameNumber(d: bytes, e: bytes, at: nat)
    requires at + 4 <= |d| && at + 4 <= |e|
    requires Number(d, at) == Number(e, at)
    ensures d[at..at + 4] == e[at..at + 4]
  {
    FieldIsNumber(d, at);
    FieldIsNumber(e, at);
    LeRoundTrip(0, d[at..at + 4]);
    LeRoundTrip(0, e[at..at + 4]);
  }

  /** Header and payload determine the datagram. */
  lemma LayoutDetermines(d: bytes, e: bytes, magic: bytes, kind: nat, id: nat, num: nat, len: nat)
    requires HasHeader(d, magic, kind, id, num, len) && HasHeader(e, magic, kind, id, num, len)
    requires d[24..] == e[24..]
    ensures d == e
  {
    SameNumber(d, e, 8);
    SameNumber(d, e, 12);
    SameNumber(d, e, 16);
    SameNumber(d, e, 20);
    HeaderParts(d);
    HeaderParts(e);
  }

  lemma HeaderParts(d: bytes)
    requires |d| >= 24
    ensures d == d[..4] + [d[4], d[5], d[6], d[7]] + d[8..12] + d[12..16] + d[16..20] + d[20..24] + d[24..]
  {
  }

  // ---------------------------------------------------------- what is sent

  /** A message that fits is sent in one datagram: type 3, id -1, number 1, the length, and then the
      message. */
  lemma WholeOnTheWire(magic: bytes, id: uint32, flat: bytes, maxSize: nat)
    requires |magic| == 4 && 24 < maxSize && |flat| + 24 <= maxSize
    ensures |Datagrams(magic, id, flat, maxSize)| == 1
    ensures var d := Datagrams(magic, id, flat, maxSize)[0];
      HasHeader(d, magic, 3, 0xFFFF_FFFF, 1, |flat| % 0x1_0000_0000) && d[24..] == flat
  {
    HeaderLayout(magic, TYPE_WHOLE, U32_MAX, 1, ToU32(|flat|), flat);
  }

  lemma HeaderAlone(magic: bytes, id: uint32, num: uint32, len: uint32)
    requires |magic| == 4
    ensures |InfoDatagram(magic, id, num, len)| == 24
    ensures HasHeader(InfoDatagram(magic, id, num, len), magic, 1, id, num, len)
  {
    HeaderLayout(magic, TYPE_INFO, id, num, len, []);
    assert InfoDatagram(magic, id, num, len) + [] == InfoDatagram(magic, id, num, len);
  }

  lemma AnnouncedOnTheWire(total: nat, p: nat)
    requires 0 < p < U32_LIMIT
    ensures AnnouncedCount(total, p) == CountExpression(total, p)
  {
    assert ToU32(ToU32(total) + (p - 1)) == ToU32(total + (p - 1));
    DivIsDivision(ToU32(total + (p - 1)), p);
  }

  lemma FirstDatagram(magic: bytes, id: uint32, flat: bytes, maxSize: nat)
    requires |magic| == 4 && 24 < maxSize <= INT_MAX && |flat| + 24 > maxSize
    ensures |Datagrams(magic, id, flat, maxSize)| >= 1
    ensures Datagrams(magic, id, flat, maxSize)[0]
      == InfoDatagram(magic, id, AnnouncedCount(|flat|, maxSize - 24), ToU32(|flat|))
  {
  }

  /** Any other message starts with an info datagram, which is a header alone: type 1, the id, the count
      in 32-bit arithmetic and the length modulo 2^32. */
  lemma InfoOnTheWire(magic: bytes, id: uint32, flat: bytes, maxSize: nat)
    requires |magic| == 4 && 24 < maxSize <= INT_MAX && |flat| + 24 > maxSize
    ensures |Datagrams(magic, id, flat, maxSize)| >= 1
    ensures var d, p := Datagrams(magic, id, flat, maxSize)[0], maxSize - 24;
      && |d| == 24
      && HasHeader(d, magic, 1, id, CountExpression(|flat|, p), |flat| % 0x1_0000_0000)
  {
    FirstDatagram(magic, id, flat, maxSize);
    AnnouncedOnTheWire(|flat|, maxSize - 24);
    HeaderAlone(magic, id, AnnouncedCount(|flat|, maxSize - 24), ToU32(|flat|));
  }

  /** The number of fragments that follow. */
  lemma DatagramCount(magic: bytes, id: uint32, flat: bytes, maxSize: nat)
    requires |magic| == 4 && 24 < maxSize <= INT_MAX && |flat| + 24 > maxSize
    ensures |Datagrams(magic, id, flat, maxSize)| == 1 + (|flat| + (maxSize - 24 - 1)) / (maxSize - 24)
  {
    DatagramsAre(magic, id, flat, maxSize);
    ChunkCount(flat, maxSize - 24);
    DivIsDivision(|flat| + (maxSize - 24 - 1), maxSize - 24);
  }

  lemma FragmentLayout(magic: bytes, id: uint32, k: nat, chunk: bytes)
    requires |magic| == 4 && |chunk| < U32_LIMIT
    ensures var d := FragmentDatagram(magic, id, k, chunk);
      HasHeader(d, magic, 2, id, k % 0x1_0000_0000, |chunk|) && d[24..] == chunk
  {
    FitsU32(|chunk|);
    HeaderLayout(magic, TYPE_FRAGMENT, id, ToU32(k), |chunk|, chunk);
  }

  /** Then come the fragments: type 2, the id, the fragment's number, its own length, and the bytes of the
      message from `k * p` up to `(k + 1) * p` or the end. */
  lemma FragmentOnTheWire(magic: bytes, id: uint32, flat: bytes, maxSize: nat, k: nat)
    requires |magic| == 4 && 24 < maxSize <= INT_MAX && |flat| + 24 > maxSize
    requires k < |Datagrams(magic, id, flat, maxSize)| - 1
    ensures var d, from := Datagrams(magic, id, flat, maxSize)[k + 1], k * (maxSize - 24);
      && 0 <= from < |flat|
      && var payload := flat[from..Min(from + (maxSize - 24), |flat|)];
      HasHeader(d, magic, 2, id, k % 0x1_0000_0000, |payload|) && d[24..] == payload
  {
    DatagramsAre(magic, id, flat, maxSize);
    ChunkAt(flat, maxSize - 24, k);
    FragmentBytes(magic, id, flat, maxSize, k);
  }

  /** Below 2^32 bytes the numbers of the fragments fit the field. */
  lemma NumbersAreExact(magic: bytes, id: uint32, flat: bytes, maxSize: nat, k: nat)
    requires |magic| == 4 && 24 < maxSize <= INT_MAX && |flat| + 24 > maxSize && |flat| < U32_LIMIT
    requires k < |Datagrams(magic, id, flat, maxSize)| - 1
    ensures k % 0x1_0000_0000 == k
  {
    DatagramsAre(magic, id, flat, maxSize);
    ChunkCount(flat, maxSize - 24);
    NumberFits(|flat|, maxSize - 24, k);
  }

  lemma FragmentBytes(magic: bytes, id: uint32, flat: bytes, maxSize: nat, k: nat)
    requires |magic| == 4 && 24 < maxSize <= INT_MAX && |flat| + 24 > maxSize
    requires k < |Chunks(flat, maxSize - 24)|
    ensures |Datagrams(magic, id, flat, maxSize)| > k + 1
    ensures var d, payload := Datagrams(magic, id, flat, maxSize)[k + 1], Chunks(flat, maxSize - 24)[k];
      HasHeader(d, magic, 2, id, k % 0x1_0000_0000, |payload|) && d[24..] == payload
  {
    ChunkSize(flat, maxSize - 24, k);
    FragmentLayout(magic, id, k, Chunks(flat, maxSize - 24)[k]);
    DatagramAt(magic, id, flat, maxSize, k);
  }

  lemma DatagramsAre(magic: bytes, id: uint32, flat: bytes, maxSize: nat)
    requires |magic| == 4 && 24 < maxSize <= INT_MAX && |flat| + 24 > maxSize
    ensures |Datagrams(magic, id, flat, maxSize)| == 1 + |Chunks(flat, maxSize - 24)|
  {
  }

  // ------------------------------------------------------------- an example

  lemma SmallNumbers()
    ensures LeBytes(1) == [1, 0, 0, 0] && LeBytes(2) == [2, 0, 0, 0] && LeBytes(3) == [3, 0, 0, 0]
    ensures LeBytes(0xFFFF_FFFF) == [255, 255, 255, 255]
    ensures LeBytes(0x0403_0201) == [1, 2, 3, 4]
    ensures LeBytes(0) == [0, 0, 0, 0]
  {
  }

  /** The message "hi" from a sender with the magic "ECAL", byte for byte. */
  lemma SmallExample(id: uint32)
    ensures Datagrams([69, 67, 65, 76], id, [104, 105], 1448) == [
      [69, 67, 65, 76] + [5, 0, 0, 0] + [3, 0, 0, 0] + [255, 255, 255, 255] + [1, 0, 0, 0] + [2, 0, 0, 0] + [104, 105]]
  {
    SmallNumbers();
  }

  lemma SmallChunks()
    ensures Chunks([7, 8, 9], 2) == [[7, 8], [9]]
    ensures AnnouncedCount(3, 2) == 2
  {
    assert [7, 8, 9][..2] == [7, 8] && [7, 8, 9][2..] == [9];
    assert Div(4, 2) == 1 + Div(2, 2) && Div(2, 2) == 1 + Div(0, 2);
  }

  /** The message 7, 8, 9 with the id 0x04030201, in datagrams of at most 26 bytes. */
  lemma FragmentedExample()
    ensures Datagrams([69, 67, 65, 76], 0x0403_0201, [7, 8, 9], 26) == [
      [69, 67, 65, 76] + [5, 0, 0, 0] + [1, 0, 0, 0] + [1, 2, 3, 4] + [2, 0, 0, 0] + [3, 0, 0, 0],
      [69, 67, 65, 76] + [5, 0, 0, 0] + [2, 0, 0, 0] + [1, 2, 3, 4] + [0, 0, 0, 0] + [2, 0, 0, 0] + [7, 8],
      [69, 67, 65, 76] + [5, 0, 0, 0] + [2, 0, 0, 0] + [1, 2, 3, 4] + [1, 0, 0, 0] + [1, 0, 0, 0] + [9]]
  {
    SmallNumbers();
    SmallChunks();
  }
}
