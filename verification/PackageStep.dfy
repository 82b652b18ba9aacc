/** One partly received message: the slot vector, the counter and the flags of a map entry, and what
    an info datagram, a fragment and the expiry sweep do to it. */
module PackageStep {
  import opened Basics

  datatype ErrorCode =
    | OK
    | MalformedDatagram
    | DuplicateDatagram
    | MalformedReassembledMessage
    | UnsupportedProtocolVersion

  /** What one step of the receiver answers. `Undefined` stands for the read through a null slot that
      the completion check performs when a slot is empty although the counter says all are filled. */
  datatype Reply = Quiet(code: ErrorCode) | Deliver(message: bytes) | Undefined

  type Slot = Option<bytes>

  /** `received` is an unsigned 32-bit counter; `lastAccess` is in ticks since the clock's epoch. */
  datatype Package = Package(
    infoReceived: bool,
    totalFragments: uint32,
    totalSize: uint32,
    received: uint32,
    lastAccess: int,
    slots: seq<Slot>)

  const NEW_PACKAGE: Package := Package(false, 0, 0, 0, 0, [])

  /** `vector::resize`: cuts off the end or appends null slots. */
  function Resize(slots: seq<Slot>, n: nat): (r: seq<Slot>)
    ensures |r| == n
    decreases n - |slots|
  {
    if n <= |slots| then slots[..n] else Resize(slots + [None], n)
  }

  predicate AllFilled(slots: seq<Slot>) {
    forall i | 0 <= i < |slots| :: slots[i].Some?
  }

  function Payloads(slots: seq<Slot>): (r: seq<bytes>)
    requires AllFilled(slots)
    ensures |r| == |slots|
  {
    seq(|slots|, i requires 0 <= i < |slots| => slots[i].value)
  }

  /** The entry after the step (`None`: erased) and the answer. */
  type Outcome = (Option<Package>, Reply)

  function CompletionCheck(p: Package): Outcome {
    if !p.infoReceived || p.received != p.totalFragments then (Some(p), Quiet(OK))
    else if !AllFilled(p.slots) then (Some(p), Undefined)
    else
      var message := Concat(Payloads(p.slots));
      if |message| != p.totalSize then (None, Quiet(MalformedReassembledMessage))
      else (None, Deliver(message))
  }

  function Existing(p: Option<Package>): Package {
    if p.Some? then p.value else NEW_PACKAGE
  }

  function OnInfo(entry: Option<Package>, num: uint32, len: uint32, now: int): Outcome {
    var p := Existing(entry);
    if p.infoReceived then (Some(p), Quiet(DuplicateDatagram))
    else CompletionCheck(Package(true, num, len, p.received, now, Resize(p.slots, num)))
  }

  /** The slot vector after the receiver made room for fragment `num`, which it does only while it
      does not know the number of fragments. `num + 1` is computed in 32 bits. */
  function Widened(p: Package, num: uint32): seq<Slot> {
    if p.infoReceived then p.slots else Resize(p.slots, Max(|p.slots|, ToU32(num + 1)))
  }

  /** `payload` is `None` when the datagram is shorter than it says. */
  function OnFragment(entry: Option<Package>, num: uint32, payload: Option<bytes>, now: int): Outcome {
    var p := Existing(entry);
    var slots := Widened(p, num);
    var q := p.(slots := slots);
    if num >= |slots| then (Some(q), Quiet(MalformedDatagram))
    else if slots[num].Some? then (Some(q), Quiet(DuplicateDatagram))
    else if payload.None? then (Some(q), Quiet(MalformedDatagram))
    else CompletionCheck(q.(slots := slots[num := payload], received := ToU32(p.received + 1), lastAccess := now))
  }

  /** The expiry sweep erases what was last accessed before the cutoff. */
  function OnSweep(entry: Option<Package>, cutoff: int): Option<Package> {
    if entry.Some? && entry.value.lastAccess < cutoff then None else entry
  }

  // ------------------------------------------------- the stream of one key

  datatype Msg = Info(num: uint32, len: uint32) | Fragment(num: uint32, payload: Option<bytes>)

  /** What can happen to one entry: a datagram for its key, or a sweep. */
  datatype Event = Arrive(msg: Msg, now: int) | Expire(cutoff: int)

  function Step(entry: Option<Package>, e: Event): Outcome {
    match e
    case Arrive(Info(num, len), now) => OnInfo(entry, num, len, now)
    case Arrive(Fragment(num, payload), now) => OnFragment(entry, num, payload, now)
    case Expire(cutoff) => (OnSweep(entry, cutoff), Quiet(OK))
  }

  function Run(entry: Option<Package>, es: seq<Event>): (r: (Option<Package>, seq<Reply>))
    ensures |r.1| == |es|
    decreases |es|
  {
    if es == [] then (entry, [])
    else
      var (next, reply) := Step(entry, es[0]);
      var (last, replies) := Run(next, es[1..]);
      (last, [reply] + replies)
  }
}
