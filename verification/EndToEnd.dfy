/** Builder and receiver together, on the bytes between them: the round trip over a network that
    interleaves, reorders, repeats, loses and pads, the exact range in which it works, and exactly what
    comes out beyond it. */
module EndToEnd {
  import opened Basics
  import opened Wire
  import opened Fragmentation
  import opened ReassemblyV5
  import opened Interleaving
  import opened OneMessage
  import opened Assembly
  import opened NullSlots
  import opened Delivery
  import opened Shipments
  import P = PackageStep

  // ------------------------------------------------------------------ round trip

  /** The round trip. A fragmented message whose datagrams each arrive once, in any order, padded or
      not, interleaved with any other traffic and with sweeps that do not overtake it, is delivered
      at its own last datagram, byte for byte; before that the receiver answers each of its datagrams
      with silence and no error, and afterwards it holds no entry for it. */
  lemma RoundTrip(sh: Shipment, s: PackageMap, actions: seq<Action>, order: seq<nat>)
    requires sh.Fragmented() && sh.InRange()
    requires Blank(Lookup(s, sh.FiledUnder()))
    requires Transmission(actions, sh.FiledUnder(), sh.Sends(), order)
    requires Permutation(order, |sh.Sends()|)
    requires Timely(false, 0, Project(actions, sh.FiledUnder()))
    ensures RepliesFor(actions, RunAll(s, actions).1, sh.FiledUnder())
      == AtTheLast(sh.flat, Project(actions, sh.FiledUnder()))
    ensures Lookup(RunAll(s, actions).0, sh.FiledUnder()) == None
  {
    var k := sh.FiledUnder();
    MessageInRange(sh);
    TransmissionBelongs(sh, actions, order);
    Projection(s, actions, k);
    AnyOrderDelivers(sh.Message(), Lookup(s, k), Project(actions, k));
  }

  /** The condition on the sweeps is exact: when each datagram arrives once, the message is delivered if
      and only if no sweep overtakes it. */
  lemma RoundTripIffTimely(sh: Shipment, s: PackageMap, actions: seq<Action>, order: seq<nat>)
    requires sh.Fragmented() && sh.InRange()
    requires Blank(Lookup(s, sh.FiledUnder()))
    requires Transmission(actions, sh.FiledUnder(), sh.Sends(), order)
    requires Permutation(order, |sh.Sends()|)
    ensures P.Deliver(sh.flat) in RepliesFor(actions, RunAll(s, actions).1, sh.FiledUnder())
      <==> Timely(false, 0, Project(actions, sh.FiledUnder()))
  {
    var k := sh.FiledUnder();
    MessageInRange(sh);
    TransmissionBelongs(sh, actions, order);
    Projection(s, actions, k);
    DeliveredIffTimely(sh.Message(), Lookup(s, k), Project(actions, k));
  }

  // -------------------------------------------------------- loss and repetition

  /** Under arbitrary loss, repetition, reordering, padding, interleaving and expiry, the datagrams of a
      message of any size make the receiver deliver nothing but what its fragments add up to as
      announced; below 2^32 bytes that is the message itself. It delivers at most as often as infos
      arrive, and reads a null slot only of a message of 2^32 bytes or more. */
  lemma LossyRoundTrip(sh: Shipment, s: PackageMap, actions: seq<Action>, order: seq<nat>)
    requires sh.Fragmented()
    requires Blank(Lookup(s, sh.FiledUnder()))
    requires Transmission(actions, sh.FiledUnder(), sh.Sends(), order)
    ensures var replies := RepliesFor(actions, RunAll(s, actions).1, sh.FiledUnder());
      && sh.Message().Cuttable()
      && (forall message | P.Deliver(message) in replies ::
        IsAssembly(sh.Message(), message) && (|sh.flat| < U32_LIMIT ==> sh.InRange() && message == sh.flat))
      && Deliveries(replies) <= multiset(order)[0]
      && (P.Undefined in replies ==> Undercounts(sh.Message()))
  {
    var k := sh.FiledUnder();
    MessageInRange(sh);
    TransmissionBrings(sh, actions, order);
    InfoArrivals(sh, actions, order);
    Projection(s, actions, k);
    LossAndDuplication(sh.Message(), Lookup(s, k), Project(actions, k));
  }

  /** In range the receiver moreover answers nothing but silence, duplicates and the message, and
      delivers at most as often as each single datagram arrived. */
  lemma LossyRoundTripInRange(sh: Shipment, s: PackageMap, actions: seq<Action>, order: seq<nat>)
    requires sh.Fragmented() && sh.InRange()
    requires Blank(Lookup(s, sh.FiledUnder()))
    requires Transmission(actions, sh.FiledUnder(), sh.Sends(), order)
    ensures forall r | r in RepliesFor(actions, RunAll(s, actions).1, sh.FiledUnder()) ::
      r == P.Quiet(P.OK) || r == P.Quiet(P.DuplicateDatagram) || r == P.Deliver(sh.flat)
    ensures forall i: nat | i < |sh.Sends()| ::
      Deliveries(RepliesFor(actions, RunAll(s, actions).1, sh.FiledUnder())) <= multiset(order)[i]
  {
    var k := sh.FiledUnder();
    MessageInRange(sh);
    TransmissionBelongs(sh, actions, order);
    Projection(s, actions, k);
    RepliesInRange(sh.Message(), Lookup(s, k), Project(actions, k));
    forall i: nat | i < |sh.Sends()|
      ensures Arrivals(Project(actions, k), i) == multiset(order)[i]
    {
      ArrivalsAreCounted(Project(actions, k), i);
    }
  }

  // -------------------------------------------------- what can come out at all

  /** Some arrival pattern of the message's datagrams makes an empty receiver deliver `message` for it. */
  ghost predicate CanDeliver(sh: Shipment, message: bytes)
    requires sh.Fragmented()
  {
    exists actions, order ::
      && Transmission(actions, sh.FiledUnder(), sh.Sends(), order)
      && P.Deliver(message) in RepliesFor(actions, RunAll(map[], actions).1, sh.FiledUnder())
  }

  lemma AssemblyIsDelivered(sh: Shipment, message: bytes, ch: seq<nat>)
    requires sh.Fragmented() && sh.Message().Cuttable() && AssembledFrom(sh.Message(), message, ch)
    ensures CanDeliver(sh, message)
  {
    var k, order := sh.FiledUnder(), Rehearsal(ch);
    MessageInRange(sh);
    EveryAssembly(sh.Message(), message, ch, 0);
    PlaybackTransmits(sh, order, 0);
    var actions := Playback(sh, order, 0);
    Projection(map[], actions, k);
    assert P.Deliver(message) in RepliesFor(actions, RunAll(map[], actions).1, k);
  }

  /** Exactly the assemblies can be delivered. */
  lemma CanDeliverIff(sh: Shipment, message: bytes)
    requires sh.Fragmented()
    ensures sh.Message().Cuttable()
    ensures CanDeliver(sh, message) <==> IsAssembly(sh.Message(), message)
  {
    MessageInRange(sh);
    if CanDeliver(sh, message) {
      var actions, order :|
        && Transmission(actions, sh.FiledUnder(), sh.Sends(), order)
        && P.Deliver(message) in RepliesFor(actions, RunAll(map[], actions).1, sh.FiledUnder());
      LossyRoundTrip(sh, map[], actions, order);
    }
    if IsAssembly(sh.Message(), message) {
      var ch :| AssembledFrom(sh.Message(), message, ch);
      AssemblyIsDelivered(sh, message, ch);
    }
  }

  /** The message can come out if and only if it is in range. */
  lemma DeliverableIffInRange(sh: Shipment)
    requires sh.Fragmented()
    ensures CanDeliver(sh, sh.flat) <==> sh.InRange()
  {
    CanDeliverIff(sh, sh.flat);
    MessageInRange(sh);
    if |sh.flat| < U32_LIMIT {
      SmallAssemblyIff(sh.Message(), sh.flat);
    }
  }

  /** A message other than the one sent can come out if and only if 2^32 bytes or more were sent and
      the sizes add up. */
  lemma WrongMessageIff(sh: Shipment)
    requires sh.Fragmented()
    ensures sh.Message().Cuttable()
    ensures (exists message :: CanDeliver(sh, message) && message != sh.flat)
      <==> |sh.flat| >= U32_LIMIT && AddsUp(sh.Message())
  {
    MessageInRange(sh);
    WrongAssemblyIff(sh.Message());
    forall message
      ensures CanDeliver(sh, message) <==> IsAssembly(sh.Message(), message)
    {
      CanDeliverIff(sh, message);
    }
  }

  /** As long as the fragment numbers fit 32 bits, that is the message cut at its length modulo 2^32, and
      it comes out if and only if that length is a multiple of the payload and its rounding up does not
      overflow. */
  lemma TruncatedMessageIff(sh: Shipment, message: bytes)
    requires sh.Fragmented() && |sh.flat| >= U32_LIMIT && |sh.Sends()| <= U32_LIMIT + 1
    ensures var t, p := ToU32(|sh.flat|), sh.maxSize - HEADER_SIZE;
      CanDeliver(sh, message) <==> message == sh.flat[..t] && t % p == 0 && t + (p - 1) < U32_LIMIT
  {
    MessageInRange(sh);
    CanDeliverIff(sh, message);
    TruncationIff(sh.Message(), message);
  }

  /** The smallest case: a message of 2^32 bytes announces no fragments and no length, so its first
      datagram alone makes the receiver deliver the empty message. */
  lemma EmptyMessageDelivered(sh: Shipment, now: int)
    requires sh.Fragmented() && |sh.flat| == U32_LIMIT
    ensures Handle(map[], sh.sender, sh.Sends()[0], now) == (map[], P.Deliver([]))
  {
    var p := sh.Message().p;
    ReadDatagram(sh, sh.sender, 0, sh.Sends()[0]);
    assert ToU32(|sh.flat|) == 0 && AnnouncedCount(|sh.flat|, p) == Div(p - 1, p) == 0;
    assert P.Step(None, P.Arrive(P.Info(0, 0), now)) == (None, P.Deliver([])) by {
      assert P.Resize([], 0) == [] && P.Payloads([]) == [];
    }
  }

  // -------------------------------------------------------------- null slots

  /** The message's datagrams, arriving with these indices, make an empty receiver read a null slot. */
  ghost predicate ReadsNullIn(sh: Shipment, actions: seq<Action>, order: seq<nat>)
    requires sh.Fragmented()
  {
    && Transmission(actions, sh.FiledUnder(), sh.Sends(), order)
    && P.Undefined in RepliesFor(actions, RunAll(map[], actions).1, sh.FiledUnder())
  }

  /** Merely reordered, each datagram at most once, an undercounted message's own datagrams do. */
  lemma ReorderingReadsNull(sh: Shipment)
    requires sh.Fragmented() && sh.Message().Cuttable() && Undercounts(sh.Message())
    ensures exists actions, order :: ReadsNullIn(sh, actions, order) && Distinct(order)
  {
    var m := sh.Message();
    var order := Overtaking(1, AnnouncedCount(|m.flat|, m.p));
    MessageInRange(sh);
    OvertakenInfoReadsNull(m, 0);
    OvertakingOnce(1, AnnouncedCount(|m.flat|, m.p));
    PlaybackTransmits(sh, order, 0);
    var actions := Playback(sh, order, 0);
    Projection(map[], actions, sh.FiledUnder());
    assert ReadsNullIn(sh, actions, order);
  }

  /** A message's own datagrams can make the receiver read a null slot if and only if it has 2^32 bytes or
      more and announces some fragments, but not 2^32 - 1. */
  lemma OwnNullSlotIff(sh: Shipment)
    requires sh.Fragmented()
    ensures sh.Message().Cuttable()
    ensures (exists actions, order :: ReadsNullIn(sh, actions, order)) <==> Undercounts(sh.Message())
  {
    MessageInRange(sh);
    if actions, order :| ReadsNullIn(sh, actions, order) {
      LossyRoundTrip(sh, map[], actions, order);
    }
    if Undercounts(sh.Message()) {
      ReorderingReadsNull(sh);
    }
  }

  /** Beyond the range no order, repetition or loss of the message's datagrams makes the receiver deliver
      the message. It delivers anything at all for it only from 2^32 bytes on, and only if the sizes add
      up. */
  lemma NeverDelivered(sh: Shipment, s: PackageMap, actions: seq<Action>, order: seq<nat>)
    requires sh.Fragmented() && !sh.InRange()
    requires Blank(Lookup(s, sh.FiledUnder()))
    requires Transmission(actions, sh.FiledUnder(), sh.Sends(), order)
    ensures sh.Message().Cuttable()
    ensures forall r | r in RepliesFor(actions, RunAll(s, actions).1, sh.FiledUnder()) && r.Deliver? ::
      r.message != sh.flat && |sh.flat| >= U32_LIMIT && AddsUp(sh.Message())
  {
    LossyRoundTrip(sh, s, actions, order);
    MessageInRange(sh);
    forall r | r in RepliesFor(actions, RunAll(s, actions).1, sh.FiledUnder()) && r.Deliver?
      ensures r.message != sh.flat && |sh.flat| >= U32_LIMIT && AddsUp(sh.Message())
    {
      assert r == P.Deliver(r.message);
      AssemblyOutOfRange(sh.Message(), r.message);
    }
  }

  // ------------------------------------------------ the exact range, in order

  lemma {:induction false} NoSweepsIsTimely(pending: bool, last: int, es: seq<P.Event>)
    requires forall e | e in es :: e.Arrive?
    ensures Timely(pending, last, es)
    decreases |es|
  {
    if es != [] {
      assert es[0] in es;
      NoSweepsIsTimely(true, es[0].now, es[1..]);
    }
  }

  lemma InOrderIsPermutation(n: nat)
    ensures Permutation(UpFrom(0, n), n)
    ensures forall i | i in UpFrom(0, n) :: i < n
  {
    PermutationIsDistinct(UpFrom(0, n), n);
  }

  lemma {:induction false} PlayHasNoSweeps(m: Sent, order: seq<nat>, now: int)
    requires m.Cuttable() && Within(m, order)
    ensures forall e | e in Play(m, order, now) :: e.Arrive?
    decreases |order|
  {
    if order != [] {
      assert order[0] in order && forall i :: i in order[1..] ==> i in order;
      PlayHasNoSweeps(m, order[1..], now + 1);
    }
  }

  /** The sharp bound: even over a perfect network, which brings every datagram once and in order, a
      fragmented message comes through if and only if its size plus one payload, less one byte, is below
      2^32. */
  lemma RoundTripIffInRange(sh: Shipment)
    requires sh.Fragmented()
    ensures var order := UpFrom(0, |sh.Sends()|);
      && (forall i | i in order :: i < |sh.Sends()|)
      && var actions := Playback(sh, order, 0);
      P.Deliver(sh.flat) in RepliesFor(actions, RunAll(map[], actions).1, sh.FiledUnder()) <==> sh.InRange()
  {
    var order := UpFrom(0, |sh.Sends()|);
    InOrderIsPermutation(|sh.Sends()|);
    PlaybackTransmits(sh, order, 0);
    var actions := Playback(sh, order, 0);
    if sh.InRange() {
      var es := Project(actions, sh.FiledUnder());
      PlayHasNoSweeps(sh.Message(), order, 0);
      NoSweepsIsTimely(false, 0, es);
      RoundTripIffTimely(sh, map[], actions, order);
    } else {
      NeverDelivered(sh, map[], actions, order);
    }
  }

  // -------------------------------------------------------------- whole messages

  /** A self-contained datagram, padded or not, is delivered at once and touches no entry. */
  lemma WholeRoundTrip(s: PackageMap, sender: Endpoint, magic: bytes, flat: bytes, padding: bytes, now: int)
    requires |magic| == 4 && HEADER_SIZE + |flat| + |padding| < U32_LIMIT
    ensures Handle(s, sender, WholeDatagram(magic, flat) + padding, now) == (s, P.Deliver(flat))
  {
    assert ToU32(|flat|) == |flat|;
    ParseEncoded(magic, TYPE_WHOLE, U32_MAX, 1, flat, padding);
  }

  /** The length field holds the length modulo 2^32, and so many bytes are read back. */
  lemma ReadWhole(magic: bytes, flat: bytes)
    requires |magic| == 4
    ensures Parse(WholeDatagram(magic, flat)) == Whole(Some(flat[..ToU32(|flat|)]))
  {
    var d := WholeDatagram(magic, flat);
    var len := ToU32(|flat|);
    FieldsOfHeader(magic, TYPE_WHOLE, U32_MAX, 1, len, flat);
    AvailableModulo(|flat|);
    assert Payload(d) == Some(d[HEADER_SIZE..HEADER_SIZE + len]);
    assert d[HEADER_SIZE..HEADER_SIZE + len] == d[HEADER_SIZE..][..len];
  }

  lemma TruncationKeepsAll(flat: bytes)
    ensures flat[..ToU32(|flat|)] == flat <==> |flat| < U32_LIMIT
  {
  }

  /** Exactly the messages whose length fits the 32-bit length field survive the trip in one datagram. */
  lemma WholeRoundTripIff(s: PackageMap, sender: Endpoint, magic: bytes, flat: bytes, now: int)
    requires |magic| == 4
    ensures Handle(s, sender, WholeDatagram(magic, flat), now) == (s, P.Deliver(flat)) <==> |flat| < U32_LIMIT
  {
    ReadWhole(magic, flat);
    TruncationKeepsAll(flat);
  }
}
