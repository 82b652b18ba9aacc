/** Building the datagrams of a message: the buffer lists handed to the network stack, the 32-bit
    bookkeeping, and the two-cursor fragmentation loop. */
module DatagramBuilder {
  import opened Basics
  import opened Wire
  import opened Fragmentation
  import opened IdGenerator

  /** One datagram to send: an owned header, which the gather list starts with, and views into the
      caller's buffers. A datagram list holds these by value and updates its last element in place. */
  datatype DatagramDescription = DatagramDescription(header: Header, views: seq<bytes>) {
    ghost predicate Valid() {
      |header.magic| == 4
    }

    /** The bytes that go out: the header as it is when the datagram is sent, then the views. */
    function Gathered(): bytes
      requires Valid()
    {
      EncodeHeader(header.magic, header.kind, header.id, header.num, header.len) + Concat(views)
    }
  }

  type DatagramList = seq<DatagramDescription>

  /** The summing loop the fragmentation steers by. */
  method Size(d: DatagramDescription) returns (size: nat)
    ensures size == HEADER_SIZE + |Concat(d.views)|
  {
    size := HEADER_SIZE;
    for i := 0 to |d.views|
      invariant size == HEADER_SIZE + |Concat(d.views[..i])|
    {
      ConcatSplit(d.views, i);
      size := size + |d.views[i]|;
    }
    assert d.views[..|d.views|] == d.views;
  }

  ghost predicate AllValid(list: DatagramList) {
    forall d | d in list :: d.Valid()
  }

  /** The bytes of all datagrams of a list. */
  ghost function GatherAll(list: DatagramList): (r: seq<bytes>)
    requires AllValid(list)
    ensures |r| == |list|
  {
    seq(|list|, i requires 0 <= i < |list| => list[i].Gathered())
  }

  // ---------------------------------------------------------------- sizes

  method TotalSize32(bufs: seq<bytes>) returns (total: uint32)
    ensures total == ToU32(|Concat(bufs)|)
  {
    total := 0;
    for i := 0 to |bufs|
      invariant total == ToU32(|Concat(bufs[..i])|)
    {
      ConcatSplit(bufs, i);
      AddToU32(|Concat(bufs[..i])|, |bufs[i]|);
      total := ToU32(total + ToU32(|bufs[i]|));
    }
    assert bufs[..|bufs|] == bufs;
  }

  method NeededFragments(total: uint32, p: nat, ghost size: nat) returns (n: uint32)
    requires 0 < p < U32_LIMIT && total == ToU32(size)
    ensures n == AnnouncedCount(size, p)
  {
    DivIsDivision(ToU32(total + (p - 1)), p);
    n := ToU32(total + (p - 1)) / p;
  }

  // --------------------------------------------------------- no empty buffers

  method WithoutEmptyBuffers(bufs: seq<bytes>) returns (result: seq<bytes>, total: nat)
    ensures Concat(result) == Concat(bufs)
    ensures total == |Concat(bufs)|
    ensures forall b | b in result :: b != []
  {
    result, total := [], 0;
    for i := 0 to |bufs|
      invariant Concat(result) == Concat(bufs[..i])
      invariant total == |Concat(bufs[..i])|
      invariant forall b | b in result :: b != []
    {
      ConcatSplit(bufs, i);
      if |bufs[i]| > 0 {
        ConcatAppend(result, bufs[i]);
        result := result + [bufs[i]];
      }
      total := total + |bufs[i]|;
    }
    assert bufs[..|bufs|] == bufs;
  }

  // ----------------------------------------------------- one whole datagram

  method CreateNonFragmentedDatagram(bufs: seq<bytes>, magic: bytes) returns (d: DatagramDescription)
    requires |magic| == 4
    ensures d.Valid() && d.Gathered() == WholeDatagram(magic, Concat(bufs))
  {
    var total := TotalSize32(bufs);
    var header := Header(magic, TYPE_WHOLE, U32_MAX, 1, total);
    var views: seq<bytes> := [];
    for i := 0 to |bufs|
      invariant views == bufs[..i]
    {
      views := views + [bufs[i]];
    }
    assert bufs[..|bufs|] == bufs;
    d := DatagramDescription(header, views);
  }

  // -------------------------------------------------- cutting, as bookkeeping

  /** What the fragmentation has produced so far: nothing, or full chunks and a growing last one. */
  datatype Progress = Idle | Cutting(full: seq<bytes>, last: bytes) {
    function Pieces(): seq<bytes> {
      if Idle? then [] else full + [last]
    }

    function Bytes(): bytes {
      if Idle? then [] else Concat(full) + last
    }

    ghost predicate Sound(p: nat) {
      Cutting? ==> |last| <= p && forall k | 0 <= k < |full| :: |full[k]| == p
    }

    /** A new chunk is opened when there is none yet or the last one is full. */
    function Opened(p: nat): (r: Progress)
      ensures r.Cutting?
    {
      if Idle? then Cutting([], [])
      else if |last| >= p then Cutting(full + [last], [])
      else this
    }

    function Grown(more: bytes): Progress
      requires Cutting?
    {
      Cutting(full, last + more)
    }
  }

  lemma OpenedSound(pr: Progress, p: nat)
    requires p > 0 && pr.Sound(p)
    ensures pr.Opened(p).Sound(p) && |pr.Opened(p).last| < p
    ensures pr.Opened(p).Bytes() == pr.Bytes()
  {
    if pr.Cutting? {
      ConcatAppend(pr.full, pr.last);
    }
  }

  // ------------------------------------------------------ the two cursors

  /** The part of the message before the cursor. */
  function Before(bufs: seq<bytes>, index: nat, offset: nat): bytes
    requires index <= |bufs|
    requires if index < |bufs| then offset <= |bufs[index]| else offset == 0
  {
    Concat(bufs[..index]) + if index < |bufs| then bufs[index][..offset] else []
  }

  /** The loop invariant on values: the pieces carry exactly the bytes before the cursor, and the
      last one is empty only just after an empty buffer opened it. */
  ghost predicate Cursor(bufs: seq<bytes>, index: nat, offset: nat, p: nat, pr: Progress) {
    && index <= |bufs|
    && (if index < |bufs| then offset == 0 || offset < |bufs[index]| else offset == 0)
    && pr.Sound(p)
    && pr.Bytes() == Before(bufs, index, offset)
    && (pr.Idle? ==> index == 0)
    && (pr.Cutting? && pr.last == [] ==> AfterEmptyBuffer(bufs, index, offset))
    && (AfterEmptyBuffer(bufs, index, offset) ==> pr.Cutting? && |pr.last| < p)
  }

  ghost predicate AfterEmptyBuffer(bufs: seq<bytes>, index: nat, offset: nat)
    requires index <= |bufs|
  {
    index > 0 && offset == 0 && bufs[index - 1] == []
  }

  /** The cursor at this offset, or at the start of the next buffer if this one is used up. */
  function Moved(bufs: seq<bytes>, index: nat, offset: nat): (nat, nat)
    requires index < |bufs|
  {
    if offset >= |bufs[index]| then (index + 1, 0) else (index, offset)
  }

  /** Bytes taken at the cursor move it on, at the end of a buffer to the next one. */
  lemma BeforeGrows(bufs: seq<bytes>, index: nat, offset: nat, to: nat)
    requires index < |bufs| && offset <= to <= |bufs[index]|
    ensures var (i, o) := Moved(bufs, index, to);
      Before(bufs, index, offset) + bufs[index][offset..to] == Before(bufs, i, o)
  {
    var done, buffer := Concat(bufs[..index]), bufs[index];
    assert done + buffer[..offset] + buffer[offset..to] == done + buffer[..to];
    if to == |buffer| {
      assert buffer[..to] == buffer;
      ConcatSplit(bufs, index);
      AtBufferStart(bufs, index + 1);
    }
  }

  lemma AtBufferStart(bufs: seq<bytes>, index: nat)
    requires index <= |bufs|
    ensures Before(bufs, index, 0) == Concat(bufs[..index])
  {
  }

  lemma GrownBytes(pr: Progress, more: bytes)
    requires pr.Cutting?
    ensures pr.Grown(more).Bytes() == pr.Bytes() + more
  {
  }

  /** One iteration moves bytes, unless the buffer is empty, and keeps the loop invariant. */
  lemma CursorStep(bufs: seq<bytes>, index: nat, offset: nat, p: nat, pr: Progress, fit: nat)
    requires p > 0 && Cursor(bufs, index, offset, p, pr) && index < |bufs|
    requires fit == Min(p - |pr.Opened(p).last|, |bufs[index]| - offset)
    ensures fit > 0 || bufs[index] == []
    ensures var (i, o) := Moved(bufs, index, offset + fit);
      Cursor(bufs, i, o, p, pr.Opened(p).Grown(bufs[index][offset..offset + fit]))
  {
    OpenedSound(pr, p);
    GrownBytes(pr.Opened(p), bufs[index][offset..offset + fit]);
    BeforeGrows(bufs, index, offset, offset + fit);
  }

  /** The one kind of buffer list the loop leaves a spurious fragment for: the last buffer is empty
      and everything before it filled its datagrams exactly. */
  predicate SpuriousFragment(bufs: seq<bytes>, p: nat)
    requires p > 0
  {
    bufs != [] && bufs[|bufs| - 1] == [] && |Concat(bufs)| % p == 0
  }

  /** The chunks the loop emits for a buffer list. */
  function EmittedChunks(bufs: seq<bytes>, p: nat): seq<bytes>
    requires p > 0
  {
    Chunks(Concat(bufs), p) + if SpuriousFragment(bufs, p) then [[]] else []
  }

  /** A direct call announces the number of fragments it emits exactly when the 32-bit count does not
      overflow and no empty last buffer opened a spurious fragment. */
  lemma AnnouncedIsEmitted(bufs: seq<bytes>, p: nat)
    requires 0 < p < U32_LIMIT
    ensures |EmittedChunks(bufs, p)| == AnnouncedCount(|Concat(bufs)|, p)
      <==> |Concat(bufs)| + (p - 1) < U32_LIMIT && !SpuriousFragment(bufs, p)
  {
    var flat := Concat(bufs);
    ChunkCount(flat, p);
    if |flat| >= U32_LIMIT {
      CountFallsShort(|flat|, p);
    } else if flat != [] {
      CountIsSharp(|flat|, p);
      CountBounds(|flat|, p);
    }
  }

  /** Where the loop ends, it has cut the whole message, up to the one spurious fragment. */
  lemma CursorAtEnd(bufs: seq<bytes>, p: nat, pr: Progress)
    requires p > 0 && Cursor(bufs, |bufs|, 0, p, pr)
    ensures pr.Pieces() == EmittedChunks(bufs, p)
  {
    assert bufs[..|bufs|] == bufs;
    if pr.Cutting? {
      assert Concat(bufs) == pr.Bytes();
      RestOfPieces(pr.full, pr.last, p);
      if pr.last == [] {
        FullPiecesAreChunks(pr.full, p);
        assert Concat(bufs) == Concat(pr.full);
        assert SpuriousFragment(bufs, p);
      } else {
        PiecesAreChunks(pr.full, pr.last, p);
        assert !SpuriousFragment(bufs, p);
      }
    }
  }

  // --------------------------------------------------------- the datagram list

  /** The list the loop has built for the pieces so far: the info datagram, and for each piece a
      fragment with its number and its length. */
  ghost predicate Built(list: DatagramList, info: Header, pieces: seq<bytes>) {
    && |list| == |pieces| + 1
    && list[0] == DatagramDescription(info, [])
    && forall i | 1 <= i < |list| ::
      && list[i].header == Header(info.magic, TYPE_FRAGMENT, info.id, ToU32(i - 1), ToU32(|pieces[i - 1]|))
      && Concat(list[i].views) == pieces[i - 1]
  }

  lemma BuiltList(list: DatagramList, info: Header, pieces: seq<bytes>)
    requires |info.magic| == 4
    requires Built(list, info, pieces)
    ensures AllValid(list)
    ensures GatherAll(list) == [EncodeHeader(info.magic, info.kind, info.id, info.num, info.len)]
      + FragmentDatagrams(info.magic, info.id, pieces)
  {
    var ds := [EncodeHeader(info.magic, info.kind, info.id, info.num, info.len)]
      + FragmentDatagrams(info.magic, info.id, pieces);
    forall i | 0 <= i < |list|
      ensures list[i].Gathered() == ds[i]
    {
    }
  }

  /** The datagrams the fragmentation emits for a buffer list. */
  function EmittedDatagrams(magic: bytes, id: uint32, bufs: seq<bytes>, p: nat): seq<bytes>
    requires |magic| == 4 && 0 < p < U32_LIMIT
  {
    var total := |Concat(bufs)|;
    [InfoDatagram(magic, id, AnnouncedCount(total, p), ToU32(total))]
    + FragmentDatagrams(magic, id, EmittedChunks(bufs, p))
  }

  /** The header of the info datagram. */
  function InfoHeader(magic: bytes, id: uint32, total: nat, p: nat): Header
    requires 0 < p < U32_LIMIT
  {
    Header(magic, TYPE_INFO, id, AnnouncedCount(total, p), ToU32(total))
  }

  lemma BuiltAll(list: DatagramList, magic: bytes, id: uint32, bufs: seq<bytes>, p: nat, pr: Progress)
    requires |magic| == 4 && 0 < p < U32_LIMIT
    requires Cursor(bufs, |bufs|, 0, p, pr)
    requires Built(list, InfoHeader(magic, id, |Concat(bufs)|, p), pr.Pieces())
    ensures AllValid(list)
    ensures GatherAll(list) == EmittedDatagrams(magic, id, bufs, p)
  {
    CursorAtEnd(bufs, p, pr);
    BuiltList(list, InfoHeader(magic, id, |Concat(bufs)|, p), pr.Pieces());
  }

  /** Everything after the id has been drawn. */
  method FragmentWithId(bufs: seq<bytes>, maxSize: nat, magic: bytes, id: uint32) returns (list: DatagramList)
    requires |magic| == 4 && HEADER_SIZE < maxSize <= INT_MAX
    ensures AllValid(list)
    ensures GatherAll(list) == EmittedDatagrams(magic, id, bufs, maxSize - HEADER_SIZE)
  {
    var total := TotalSize32(bufs);
    var neededFragments := NeededFragments(total, maxSize - HEADER_SIZE, |Concat(bufs)|);
    ghost var pr;
    list, pr := AppendFragments(Header(magic, TYPE_INFO, id, neededFragments, total), bufs, maxSize);
    BuiltAll(list, magic, id, bufs, maxSize - HEADER_SIZE, pr);
  }

  /** The fragmentation loop; magic and id of the fragments are those of the info. */
  method AppendFragments(info: Header, bufs: seq<bytes>, maxSize: nat) returns (list: DatagramList, ghost pr: Progress)
    requires HEADER_SIZE < maxSize
    ensures Built(list, info, pr.Pieces())
    ensures Cursor(bufs, |bufs|, 0, maxSize - HEADER_SIZE, pr)
  {
    list, pr := [DatagramDescription(info, [])], Idle;
    var index: nat, offset: nat := 0, 0;
    // The second disjunct of the source's guard (last index, offset inside) implies the first.
    while index < |bufs|
      invariant Cursor(bufs, index, offset, maxSize - HEADER_SIZE, pr)
      invariant Built(list, info, pr.Pieces())
      decreases |bufs| - index, if index < |bufs| then |bufs[index]| - offset else 0
    {
      list, index, offset, pr := Iterate(list, bufs, index, offset, maxSize, info, pr);
    }
  }

  /** One iteration: fills the datagram that has room, and moves the cursor. */
  method Iterate(
    list: DatagramList, bufs: seq<bytes>, index: nat, offset: nat, maxSize: nat, info: Header, ghost pr: Progress)
    returns (result: DatagramList, nextIndex: nat, nextOffset: nat, ghost grown: Progress)
    requires HEADER_SIZE < maxSize && index < |bufs|
    requires Cursor(bufs, index, offset, maxSize - HEADER_SIZE, pr)
    requires Built(list, info, pr.Pieces())
    ensures Cursor(bufs, nextIndex, nextOffset, maxSize - HEADER_SIZE, grown)
    ensures Built(result, info, grown.Pieces())
    ensures nextIndex > index || (nextIndex == index && nextOffset > offset)
  {
    var fit;
    result, fit, grown := FragmentStep(list, bufs[index], offset, maxSize, info, pr);
    CursorStep(bufs, index, offset, maxSize - HEADER_SIZE, pr, fit);
    nextIndex, nextOffset := index, offset + fit;
    if nextOffset >= |bufs[index]| {
      nextIndex := index + 1;
      nextOffset := 0;
    }
    assert (nextIndex, nextOffset) == Moved(bufs, index, offset + fit);
  }

  /** Moves bytes of `buffer`, from `offset` on, into a datagram that has room. */
  method FragmentStep(list: DatagramList, buffer: bytes, offset: nat, maxSize: nat, info: Header, ghost pr: Progress)
    returns (result: DatagramList, fit: nat, ghost grown: Progress)
    requires HEADER_SIZE < maxSize && offset <= |buffer|
    requires pr.Sound(maxSize - HEADER_SIZE)
    requires Built(list, info, pr.Pieces())
    ensures fit == Min(maxSize - HEADER_SIZE - |pr.Opened(maxSize - HEADER_SIZE).last|, |buffer| - offset)
    ensures grown == pr.Opened(maxSize - HEADER_SIZE).Grown(buffer[offset..offset + fit])
    ensures Built(result, info, grown.Pieces())
  {
    ghost var ready := pr.Opened(maxSize - HEADER_SIZE);
    OpenedSound(pr, maxSize - HEADER_SIZE);
    result := EnsureRoom(list, maxSize, info, pr);
    result, fit := FillDatagram(result, buffer, offset, maxSize, info, ready);
    grown := ready.Grown(buffer[offset..offset + fit]);
  }

  /** Creates a new datagram if the last one is full, or if there is none yet. */
  method EnsureRoom(list: DatagramList, maxSize: nat, info: Header, ghost pr: Progress)
    returns (result: DatagramList)
    requires HEADER_SIZE < maxSize
    requires Built(list, info, pr.Pieces())
    ensures Built(result, info, pr.Opened(maxSize - HEADER_SIZE).Pieces())
  {
    result := list;
    var room := false;
    if |list| > 1 {
      var size := Size(list[|list| - 1]);
      room := size < maxSize;
    }
    if !room {
      // The number is the index of the new datagram, not counting the info datagram.
      var header := Header(info.magic, TYPE_FRAGMENT, info.id, ToU32(|list| - 1), 0);
      result := list + [DatagramDescription(header, [])];
    }
  }

  /** Moves as many bytes of `buffer` from `offset` on into the last datagram as it has room for. */
  method FillDatagram(
    list: DatagramList, buffer: bytes, offset: nat, maxSize: nat, ghost info: Header, ghost pr: Progress)
    returns (result: DatagramList, fit: nat)
    requires HEADER_SIZE < maxSize && offset <= |buffer|
    requires pr.Cutting? && |pr.last| <= maxSize - HEADER_SIZE
    requires Built(list, info, pr.Pieces())
    ensures fit == Min(maxSize - HEADER_SIZE - |pr.last|, |buffer| - offset)
    ensures Built(result, info, pr.Grown(buffer[offset..offset + fit]).Pieces())
  {
    var size := Size(list[|list| - 1]);
    fit := Min(maxSize - size, |buffer| - offset);
    result := AppendToLast(list, buffer[offset..offset + fit], info, pr);
  }

  /** Adds a view to the last datagram and its length to that datagram's header, in place. */
  method AppendToLast(list: DatagramList, view: bytes, ghost info: Header, ghost pr: Progress)
    returns (result: DatagramList)
    requires pr.Cutting?
    requires Built(list, info, pr.Pieces())
    ensures Built(result, info, pr.Grown(view).Pieces())
  {
    var last := list[|list| - 1];
    ConcatAppend(last.views, view);
    AddToU32(|pr.last|, |view|);
    last := last.(views := last.views + [view]);
    last := last.(header := last.header.(len := ToU32(last.header.len + ToU32(|view|))));
    result := list[..|list| - 1] + [last];
  }

  lemma AddToU32(a: nat, b: nat)
    ensures ToU32(ToU32(a) + ToU32(b)) == ToU32(a + b)
  {
  }

  /** For a list without empty buffers these are the datagrams of the message. */
  lemma EmittedForMessage(magic: bytes, id: uint32, bufs: seq<bytes>, maxSize: nat)
    requires |magic| == 4 && HEADER_SIZE < maxSize <= INT_MAX
    requires |Concat(bufs)| + HEADER_SIZE > maxSize
    requires forall b | b in bufs :: b != []
    ensures EmittedDatagrams(magic, id, bufs, maxSize - HEADER_SIZE)
      == Fragmentation.Datagrams(magic, id, Concat(bufs), maxSize)
  {
    assert bufs != [] ==> bufs[|bufs| - 1] in bufs;
  }

  method CreateFragmentedDatagramList(bufs: seq<bytes>, maxSize: nat, magic: bytes, gen: Generator)
    returns (list: DatagramList, id: uint32)
    requires |magic| == 4 && HEADER_SIZE < maxSize <= INT_MAX
    modifies gen
    ensures gen.Current() == Next(Mix, old(gen.Current()))
    ensures id == ToUint32(Next(Mix, old(gen.Current())).z)
    ensures AllValid(list)
    ensures GatherAll(list) == EmittedDatagrams(magic, id, bufs, maxSize - HEADER_SIZE)
  {
    id := gen.Xorshf96();
    list := FragmentWithId(bufs, maxSize, magic, id);
  }

  // -------------------------------------------------------------- the entry point

  datatype BuildError = MaxDatagramSizeTooSmall

  datatype BuildResult = Datagrams(list: DatagramList, id: uint32) | Rejected(error: BuildError)

  /** Whatever way a message is split into buffers, empty ones included, the datagrams are those of
      its bytes. A message that fits into one datagram draws no id. */
  method CreateDatagramList(bufs: seq<bytes>, maxSize: nat, magic: bytes, gen: Generator)
    returns (r: BuildResult)
    requires |magic| == 4
    requires maxSize <= INT_MAX || |Concat(bufs)| + HEADER_SIZE <= maxSize
    modifies gen
    ensures r.Rejected? <==> maxSize <= HEADER_SIZE
    ensures r.Datagrams? ==> AllValid(r.list)
    ensures r.Datagrams? ==> GatherAll(r.list) == Fragmentation.Datagrams(magic, r.id, Concat(bufs), maxSize)
    ensures if r.Datagrams? && |Concat(bufs)| + HEADER_SIZE > maxSize
      then gen.Current() == Next(Mix, old(gen.Current())) && r.id == ToUint32(gen.Current().z)
      else gen.Current() == old(gen.Current())
  {
    if maxSize <= HEADER_SIZE {
      return Rejected(MaxDatagramSizeTooSmall);
    }
    var nonEmpty, total := WithoutEmptyBuffers(bufs);
    if total + HEADER_SIZE <= maxSize {
      var d := CreateNonFragmentedDatagram(nonEmpty, magic);
      r := Datagrams([d], 0);
    } else {
      var list, id := CreateFragmentedDatagramList(nonEmpty, maxSize, magic, gen);
      EmittedForMessage(magic, id, nonEmpty, maxSize);
      r := Datagrams(list, id);
    }
  }
}
