/** The v5 wire format: byte order, the 24-byte header, and how a receiver reads a datagram. */
module Wire {
  import opened Basics

  const HEADER_SIZE: nat := 24

  const TYPE_INFO: uint32 := 1
  const TYPE_FRAGMENT: uint32 := 2
  const TYPE_WHOLE: uint32 := 3

  // ---------------------------------------------------------------- byte order

  datatype Host = LittleEndian | BigEndian

  /** The four bytes of a little-endian 32-bit field. */
  function LeBytes(v: uint32): (r: bytes)
    ensures |r| == 4
  {
    var v1 := v / 0x100;
    var v2 := v1 / 0x100;
    var v3 := v2 / 0x100;
    [v % 0x100, v1 % 0x100, v2 % 0x100, v3]
  }

  function FromLe(b: bytes): uint32
    requires |b| == 4
  {
    var b0: int, b1: int, b2: int, b3: int := b[0], b[1], b[2], b[3];
    b0 + 0x100 * (b1 + 0x100 * (b2 + 0x100 * b3))
  }

  function Reverse4(b: bytes): bytes
    requires |b| == 4
  {
    [b[3], b[2], b[1], b[0]]
  }

  /** How a host lays a 32-bit integer out in memory, and reads it back. */
  function Store(host: Host, v: uint32): (r: bytes)
    ensures |r| == 4
  {
    if host.LittleEndian? then LeBytes(v) else Reverse4(LeBytes(v))
  }

  function Load(host: Host, b: bytes): uint32
    requires |b| == 4
  {
    if host.LittleEndian? then FromLe(b) else FromLe(Reverse4(b))
  }

  function ByteSwap(v: uint32): uint32 {
    FromLe(Reverse4(LeBytes(v)))
  }

  function HToLe32(host: Host, v: uint32): uint32 {
    if host.LittleEndian? then v else ByteSwap(v)
  }

  function Le32ToH(host: Host, v: uint32): uint32 {
    if host.LittleEndian? then v else ByteSwap(v)
  }

  lemma LeRoundTrip(v: uint32, b: bytes)
    requires |b| == 4
    ensures FromLe(LeBytes(v)) == v
    ensures LeBytes(FromLe(b)) == b
  {
    var b0: int, b1: int, b2: int, b3: int := b[0], b[1], b[2], b[3];
    var v1 := b1 + 0x100 * (b2 + 0x100 * b3);
    assert FromLe(b) % 0x100 == b0 && FromLe(b) / 0x100 == v1;
    assert v1 % 0x100 == b1 && v1 / 0x100 == b2 + 0x100 * b3;
    assert (b2 + 0x100 * b3) % 0x100 == b2 && (b2 + 0x100 * b3) / 0x100 == b3;
  }

  /** Storing through htole32 writes the little-endian bytes, and loading through le32toh reads
      them, whatever the byte order of the host. */
  lemma HostIndependent(host: Host, v: uint32, b: bytes)
    requires |b| == 4
    ensures Store(host, HToLe32(host, v)) == LeBytes(v)
    ensures Le32ToH(host, Load(host, b)) == FromLe(b)
  {
    LeRoundTrip(v, Reverse4(LeBytes(v)));
    LeRoundTrip(v, Reverse4(b));
    assert Reverse4(Reverse4(LeBytes(v))) == LeBytes(v);
    assert Reverse4(Reverse4(b)) == b;
  }

  /** `len = htole32(le32toh(len) + n)` on the four bytes of the field: the little-endian value goes
      up by `n`, on every host. */
  lemma ReadAddWrite(host: Host, field: bytes, n: uint32)
    requires |field| == 4
    ensures Store(host, HToLe32(host, ToU32(Le32ToH(host, Load(host, field)) + n)))
      == LeBytes(ToU32(FromLe(field) + n))
  {
    HostIndependent(host, 0, field);
    HostIndependent(host, ToU32(FromLe(field) + n), field);
  }

  /** Reinterpretation of the unsigned wire field as the signed message id. */
  function ToInt32(v: uint32): int32 {
    if v < 0x8000_0000 then v else v - 0x1_0000_0000
  }

  lemma ToInt32Injective(v: uint32, w: uint32)
    ensures ToInt32(v) == ToInt32(w) <==> v == w
  {
  }

  // -------------------------------------------------------------------- header

  /** The header as the struct the code fills in; the fields are the values before `htole32`. */
  datatype Header = Header(magic: bytes, kind: uint32, id: uint32, num: uint32, len: uint32)

  /** The 24 bytes of a header: version 5, reserved bytes zero, fields little-endian. */
  function EncodeHeader(magic: bytes, kind: uint32, id: uint32, num: uint32, len: uint32): (r: bytes)
    requires |magic| == 4
    ensures |r| == HEADER_SIZE
  {
    magic + [5, 0, 0, 0] + LeBytes(kind) + LeBytes(id) + LeBytes(num) + LeBytes(len)
  }

  /** The 32-bit header field at byte offset `at`. */
  function Field(d: bytes, at: nat): uint32
    requires at + 4 <= |d|
  {
    FromLe(d[at..at + 4])
  }

  lemma FieldsOfHeader(magic: bytes, kind: uint32, id: uint32, num: uint32, len: uint32, rest: bytes)
    requires |magic| == 4
    ensures var d := EncodeHeader(magic, kind, id, num, len) + rest;
      && d[..4] == magic && d[4] == 5
      && Field(d, 8) == kind && Field(d, 12) == id && Field(d, 16) == num && Field(d, 20) == len
      && d[HEADER_SIZE..] == rest
  {
    var d := EncodeHeader(magic, kind, id, num, len) + rest;
    assert d[..4] == magic;
    assert d[8..12] == LeBytes(kind);
    assert d[12..16] == LeBytes(id);
    assert d[16..20] == LeBytes(num);
    assert d[20..24] == LeBytes(len);
    LeRoundTrip(kind, LeBytes(kind));
    LeRoundTrip(id, LeBytes(id));
    LeRoundTrip(num, LeBytes(num));
    LeRoundTrip(len, LeBytes(len));
  }

  // ----------------------------------------------------------------- receiving

  /** What the receiver makes of a datagram. The payload is `None` when the header announces more
      bytes than the datagram carries. */
  datatype Parsed =
    | Invalid
    | Info(id: int32, num: uint32, len: uint32)
    | Fragment(id: int32, num: uint32, payload: Option<bytes>)
    | Whole(payload: Option<bytes>)

  /** `static_cast<unsigned int>(size) - sizeof(Header)`, converted back to 32 bits. */
  function BytesAvailable(size: nat): (r: uint32)
    requires HEADER_SIZE <= size
    ensures r <= size - HEADER_SIZE
    ensures size < U32_LIMIT ==> r == size - HEADER_SIZE
  {
    ToU32(ToU32(size) - HEADER_SIZE)
  }

  lemma AvailableModulo(n: nat)
    ensures BytesAvailable(HEADER_SIZE + n) == ToU32(n)
  {
  }

  function Payload(d: bytes): Option<bytes>
    requires HEADER_SIZE <= |d|
  {
    var len := Field(d, 20);
    if len > BytesAvailable(|d|) then None else Some(d[HEADER_SIZE..HEADER_SIZE + len])
  }

  function Parse(d: bytes): Parsed {
    if |d| < HEADER_SIZE then Invalid
    else if Field(d, 8) == TYPE_INFO then Info(ToInt32(Field(d, 12)), Field(d, 16), Field(d, 20))
    else if Field(d, 8) == TYPE_FRAGMENT then Fragment(ToInt32(Field(d, 12)), Field(d, 16), Payload(d))
    else if Field(d, 8) == TYPE_WHOLE then Whole(Payload(d))
    else Invalid
  }

  /** What a receiver reads back from the bytes a sender wrote: the fields and exactly the announced
      payload, whatever padding follows it. */
  lemma ParseEncoded(magic: bytes, kind: uint32, id: uint32, num: uint32, payload: bytes, padding: bytes)
    requires |magic| == 4
    requires HEADER_SIZE + |payload| + |padding| < U32_LIMIT
    ensures var d := EncodeHeader(magic, kind, id, num, |payload|) + payload + padding;
      Parse(d) ==
        if kind == TYPE_INFO then Info(ToInt32(id), num, |payload|)
        else if kind == TYPE_FRAGMENT then Fragment(ToInt32(id), num, Some(payload))
        else if kind == TYPE_WHOLE then Whole(Some(payload))
        else Invalid
  {
    var d := EncodeHeader(magic, kind, id, num, |payload|) + payload + padding;
    assert d == EncodeHeader(magic, kind, id, num, |payload|) + (payload + padding);
    FieldsOfHeader(magic, kind, id, num, |payload|, payload + padding);
    assert d[HEADER_SIZE..HEADER_SIZE + |payload|] == payload;
  }

  /** The info datagram announces a length without carrying a payload. */
  lemma ParseInfo(magic: bytes, id: uint32, num: uint32, len: uint32, padding: bytes)
    requires |magic| == 4
    ensures Parse(EncodeHeader(magic, TYPE_INFO, id, num, len) + padding) == Info(ToInt32(id), num, len)
  {
    FieldsOfHeader(magic, TYPE_INFO, id, num, len, padding);
  }
}
