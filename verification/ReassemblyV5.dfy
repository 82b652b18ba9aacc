/** The receiver: datagrams in, complete messages out. */
module ReassemblyV5 {
  import opened Basics
  import opened Wire
  import P = PackageStep
  import R = RawMemory

  datatype Endpoint = Endpoint(address: bytes, port: nat)

  /** Packages are kept per sender and message id. */
  datatype Key = Key(endpoint: Endpoint, id: int32)

  type PackageMap = map<Key, P.Package>

  function Lookup(s: PackageMap, k: Key): Option<P.Package> {
    if k in s then Some(s[k]) else None
  }

  function Put(s: PackageMap, k: Key, entry: Option<P.Package>): PackageMap {
    if entry.Some? then s[k := entry.value] else s - {k}
  }

  lemma PutOverwrites(s: PackageMap, k: Key, p: P.Package, entry: Option<P.Package>)
    ensures Put(s[k := p], k, entry) == Put(s, k, entry)
  {
  }

  /** The key and the event a datagram is dispatched to. */
  function Addressed(sender: Endpoint, d: bytes): Option<(Key, P.Msg)> {
    match Parse(d)
    case Info(id, num, len) => Some((Key(sender, id), P.Msg.Info(num, len)))
    case Fragment(id, num, payload) => Some((Key(sender, id), P.Msg.Fragment(num, payload)))
    case _ => None
  }

  /** What the receiver does with a datagram. */
  function Handle(s: PackageMap, sender: Endpoint, d: bytes, now: int): (PackageMap, P.Reply) {
    match Addressed(sender, d)
    case Some((k, m)) =>
      var (entry, reply) := P.Step(Lookup(s, k), P.Arrive(m, now));
      (Put(s, k, entry), reply)
    case None =>
      (s, match Parse(d)
          case Whole(Some(message)) => P.Deliver(message)
          case _ => P.Quiet(P.MalformedDatagram))
  }

  /** What the expiry sweep leaves. */
  function Sweep(s: PackageMap, cutoff: int): PackageMap {
    map k | k in s && s[k].lastAccess >= cutoff :: s[k]
  }

  class Reassembly {
    var packages: PackageMap

    constructor ()
      ensures packages == map[]
    {
      packages := map[];
    }

    /** `recycled` is the memory object the pool hands out for a large message; its contents are
        arbitrary. Only a reassembled message touches it. */
    method HandleDatagram(buffer: R.RawMemory, sender: Endpoint, now: int, recycled: R.RawMemory)
      returns (reply: P.Reply)
      requires buffer.Valid() && recycled.Valid()
      requires buffer != recycled && buffer.data != recycled.data
      modifies this, recycled, recycled.data
      ensures recycled.Valid()
      ensures (packages, reply) == Handle(old(packages), sender, old(buffer.Contents()), now)
    {
      if buffer.size < HEADER_SIZE {
        return P.Quiet(P.MalformedDatagram);
      }
      var d := buffer.Contents();
      var kind := Field(d, 8);
      if kind == TYPE_INFO {
        reply := HandleInfo(d, sender, now, recycled);
      } else if kind == TYPE_FRAGMENT {
        reply := HandleFragment(d, sender, now, recycled);
      } else if kind == TYPE_WHOLE {
        reply := HandleNonFragmented(d);
      } else {
        reply := P.Quiet(P.MalformedDatagram);
      }
    }

    method HandleInfo(d: bytes, sender: Endpoint, now: int, recycled: R.RawMemory) returns (reply: P.Reply)
      requires HEADER_SIZE <= |d| && Field(d, 8) == TYPE_INFO
      requires recycled.Valid()
      modifies this, recycled, recycled.data
      ensures recycled.Valid()
      ensures (packages, reply) == Handle(old(packages), sender, d, now)
    {
      var key := Key(sender, ToInt32(Field(d, 12)));

      // Create the package if there is none with this id yet.
      if key !in packages {
        packages := packages[key := P.NEW_PACKAGE];
      } else if packages[key].infoReceived {
        assert packages[key := packages[key]] == packages;
        return P.Quiet(P.DuplicateDatagram);
      }

      var p := packages[key].(infoReceived := true, totalFragments := Field(d, 16), totalSize := Field(d, 20));
      p := p.(slots := P.Resize(p.slots, p.totalFragments), lastAccess := now);
      packages := packages[key := p];
      PutOverwrites(old(packages), key, p, P.CompletionCheck(p).0);
      assert packages == old(packages)[key := p];

      reply := HandleIfComplete(key, recycled);
    }

    method HandleFragment(d: bytes, sender: Endpoint, now: int, recycled: R.RawMemory) returns (reply: P.Reply)
      requires HEADER_SIZE <= |d| && Field(d, 8) == TYPE_FRAGMENT
      requires recycled.Valid()
      modifies this, recycled, recycled.data
      ensures recycled.Valid()
      ensures (packages, reply) == Handle(old(packages), sender, d, now)
    {
      var key := Key(sender, ToInt32(Field(d, 12)));
      if key !in packages {
        packages := packages[key := P.NEW_PACKAGE];
      }
      ghost var outcome := P.OnFragment(Some(packages[key]), Field(d, 16), Payload(d), now);
      PutOverwrites(old(packages), key, packages[key], outcome.0);
      assert packages == old(packages)[key := packages[key]];

      reply := StoreFragment(key, Field(d, 16), d, now, recycled);
    }

    /** The rest of the fragment handler, for an entry that exists. */
    method StoreFragment(key: Key, num: uint32, d: bytes, now: int, recycled: R.RawMemory) returns (reply: P.Reply)
      requires HEADER_SIZE <= |d|
      requires key in packages && recycled.Valid()
      modifies this, recycled, recycled.data
      ensures recycled.Valid()
      ensures var (entry, r) := P.OnFragment(Some(old(packages[key])), num, Payload(d), now);
        packages == Put(old(packages), key, entry) && reply == r
    {
      var p := packages[key];

      // Make room, as long as the number of fragments is not known.
      if !p.infoReceived {
        p := p.(slots := P.Resize(p.slots, Max(|p.slots|, ToU32(num + 1))));
        packages := packages[key := p];
      }
      assert packages == old(packages)[key := p];

      if num >= |p.slots| {
        return P.Quiet(P.MalformedDatagram);
      }
      if p.slots[num].Some? {
        return P.Quiet(P.DuplicateDatagram);
      }
      var fragmentSize := Field(d, 20);
      if fragmentSize > BytesAvailable(|d|) {
        return P.Quiet(P.MalformedDatagram);
      }

      p := p.(slots := p.slots[num := Some(d[HEADER_SIZE..HEADER_SIZE + fragmentSize])]);
      p := p.(received := ToU32(p.received + 1), lastAccess := now);
      packages := packages[key := p];
      PutOverwrites(old(packages), key, p, P.CompletionCheck(p).0);
      assert packages == old(packages)[key := p];

      reply := HandleIfComplete(key, recycled);
    }

    method HandleNonFragmented(d: bytes) returns (reply: P.Reply)
      requires HEADER_SIZE <= |d| && Field(d, 8) == TYPE_WHOLE
      ensures forall s, sender, now :: Handle(s, sender, d, now) == (s, reply)
    {
      var payloadSize := Field(d, 20);
      if payloadSize > BytesAvailable(|d|) {
        return P.Quiet(P.MalformedDatagram);
      }
      reply := P.Deliver(d[HEADER_SIZE..HEADER_SIZE + payloadSize]);
    }

    method HandleIfComplete(key: Key, recycled: R.RawMemory) returns (reply: P.Reply)
      requires key in packages && recycled.Valid()
      modifies this, recycled, recycled.data
      ensures recycled.Valid()
      ensures var (entry, r) := P.CompletionCheck(old(packages[key]));
        packages == Put(old(packages), key, entry) && reply == r
    {
      var p := packages[key];
      if !p.infoReceived || p.received != p.totalFragments {
        assert packages[key := p] == packages;
        return P.Quiet(P.OK);
      }

      var allFilled, size := CumulatedSize(p.slots);
      if !allFilled {
        assert packages[key := p] == packages;
        return P.Undefined;
      }
      if size != p.totalSize {
        packages := packages - {key};
        return P.Quiet(P.MalformedReassembledMessage);
      }

      ReassemblePackage(p, recycled);
      packages := packages - {key};
      reply := P.Deliver(recycled.Contents());
    }

    /** The erase-while-iterating sweep; the order of iteration does not matter. */
    method RemoveOldPackages(cutoff: int)
      modifies this
      ensures packages == Sweep(old(packages), cutoff)
    {
      var todo := packages.Keys;
      while todo != {}
        invariant todo <= packages.Keys <= old(packages).Keys
        invariant forall k | k in packages :: packages[k] == old(packages)[k]
        invariant forall k | k in old(packages) && k !in todo ::
          k in packages <==> old(packages)[k].lastAccess >= cutoff
        decreases todo
      {
        var k :| k in todo;
        todo := todo - {k};
        if packages[k].lastAccess < cutoff {
          packages := packages - {k};
        }
      }
    }
  }

  /** Adds up the sizes of the fragments; stops at a null slot, which the source would read. */
  method CumulatedSize(slots: seq<P.Slot>) returns (allFilled: bool, size: nat)
    ensures allFilled == P.AllFilled(slots)
    ensures allFilled ==> size == |Concat(P.Payloads(slots))|
  {
    size := 0;
    for i := 0 to |slots|
      invariant P.AllFilled(slots[..i])
      invariant size == |Concat(P.Payloads(slots[..i]))|
    {
      if slots[i].None? {
        return false, size;
      }
      assert P.Payloads(slots[..i + 1]) == P.Payloads(slots[..i]) + [slots[i].value];
      ConcatAppend(P.Payloads(slots[..i]), slots[i].value);
      size := size + |slots[i].value|;
    }
    assert slots[..|slots|] == slots;
    allFilled := true;
  }

  lemma Glue(s: bytes, at: nat, end: nat)
    requires at <= end <= |s|
    ensures s[..end] == s[..at] + s[at..end]
  {
  }

  /** The copy loop. Whatever the recycled memory held, it ends up holding the concatenation of the
      slots in index order, and every write stays inside the `totalSize` bytes in use. */
  method ReassemblePackage(p: P.Package, memory: R.RawMemory)
    requires memory.Valid()
    requires P.AllFilled(p.slots) && |Concat(P.Payloads(p.slots))| == p.totalSize
    modifies memory, memory.data
    ensures memory.Valid()
    ensures memory.Contents() == Concat(P.Payloads(p.slots))
    ensures memory.data == old(memory.data) || fresh(memory.data)
    ensures old(memory.data.Length) <= memory.data.Length
    ensures forall i | p.totalSize <= i < old(memory.data.Length) :: memory.data[i] == old(memory.data[i])
  {
    memory.Resize(p.totalSize);
    ghost var parts := P.Payloads(p.slots);
    ghost var tail := memory.data[p.totalSize..];
    var position := 0;
    for i := 0 to |p.slots|
      invariant memory.Valid() && memory.size == p.totalSize
      invariant memory.data == old(memory.data) || fresh(memory.data)
      invariant position == |Concat(parts[..i])|
      invariant position <= memory.size
      invariant memory.data[..position] == Concat(parts[..i])
      invariant memory.data[p.totalSize..] == tail
    {
      ConcatSplit(parts, i);
      var fragment := p.slots[i].value;
      assert fragment == parts[i];
      memory.CopyIn(position, fragment);
      position := position + |fragment|;
      Glue(memory.data[..], position - |fragment|, position);
    }
    assert parts[..|p.slots|] == parts;
  }
}
