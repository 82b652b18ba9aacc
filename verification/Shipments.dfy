/** Messages on their way: what the receiver reads back from a sender's bytes, and the arrival of a
    message's datagrams among other traffic. */
module Shipments {
  import opened Basics
  import opened Wire
  import opened Fragmentation
  import opened ReassemblyV5
  import opened Interleaving
  import opened OneMessage
  import opened Assembly
  import opened Delivery
  import P = PackageStep

  /** A message on its way: the bytes, the sender's settings and address, and the drawn id. */
  datatype Shipment = Shipment(sender: Endpoint, magic: bytes, id: uint32, flat: bytes, maxSize: nat) {
    /** Message and datagram size call for fragmentation, within the sender's size type. */
    ghost predicate Fragmented() {
      && |magic| == 4
      && HEADER_SIZE < maxSize <= INT_MAX
      && |flat| + HEADER_SIZE > maxSize
    }

    /** The range in which the 32-bit fragment count is right. */
    ghost predicate InRange() {
      |flat| + (maxSize - HEADER_SIZE - 1) < U32_LIMIT
    }

    function Message(): Sent
      requires HEADER_SIZE < maxSize
    {
      Sent(flat, maxSize - HEADER_SIZE)
    }

    /** Where the receiver files its datagrams. */
    function FiledUnder(): Key {
      Key(sender, ToInt32(id))
    }

    ghost function Sends(): seq<bytes>
      requires Fragmented()
    {
      Datagrams(magic, id, flat, maxSize)
    }
  }

  // ---------------------------------------------------- what the receiver reads

  lemma ReadInfo(sender: Endpoint, magic: bytes, id: uint32, num: uint32, len: uint32, d: bytes)
    requires |magic| == 4 && InfoDatagram(magic, id, num, len) <= d
    ensures Addressed(sender, d) == Some((Key(sender, ToInt32(id)), P.Msg.Info(num, len)))
  {
    var h := InfoDatagram(magic, id, num, len);
    assert d == h + d[|h|..];
    ParseInfo(magic, id, num, len, d[|h|..]);
  }

  lemma ReadFragment(sender: Endpoint, magic: bytes, id: uint32, k: nat, chunk: bytes, d: bytes)
    requires |magic| == 4 && FragmentDatagram(magic, id, k, chunk) <= d && |d| < U32_LIMIT
    ensures Addressed(sender, d) == Some((Key(sender, ToInt32(id)), P.Msg.Fragment(ToU32(k), Some(chunk))))
  {
    var h := FragmentDatagram(magic, id, k, chunk);
    assert |chunk| < U32_LIMIT && ToU32(|chunk|) == |chunk|;
    assert h == EncodeHeader(magic, TYPE_FRAGMENT, id, ToU32(k), |chunk|) + chunk;
    assert d == h + d[|h|..];
    ParseEncoded(magic, TYPE_FRAGMENT, id, ToU32(k), chunk, d[|h|..]);
  }

  lemma SentDatagram(sh: Shipment, i: nat)
    requires sh.Fragmented() && i < |sh.Sends()|
    ensures |sh.Sends()| == sh.Message().Count() + 1
    ensures sh.Sends()[i] ==
      if i == 0 then InfoDatagram(sh.magic, sh.id, AnnouncedCount(|sh.flat|, sh.Message().p), ToU32(|sh.flat|))
      else FragmentDatagram(sh.magic, sh.id, i - 1, Chunks(sh.flat, sh.Message().p)[i - 1])
  {
  }

  /** What the receiver reads from any datagram of the message, in range or not. */
  lemma ReadDatagram(sh: Shipment, sender: Endpoint, i: nat, d: bytes)
    requires sh.Fragmented() && i < |sh.Sends()|
    requires sh.Sends()[i] <= d && |d| < U32_LIMIT
    ensures i <= sh.Message().Count()
    ensures Addressed(sender, d) == Some((Key(sender, ToInt32(sh.id)), Carried(sh.Message(), i)))
  {
    var p := sh.Message().p;
    SentDatagram(sh, i);
    if i == 0 {
      ReadInfo(sender, sh.magic, sh.id, AnnouncedCount(|sh.flat|, p), ToU32(|sh.flat|), d);
    } else {
      ReadFragment(sender, sh.magic, sh.id, i - 1, Chunks(sh.flat, p)[i - 1], d);
    }
  }

  lemma MessageInRange(sh: Shipment)
    requires sh.Fragmented()
    ensures sh.Message().Cuttable() && (sh.InRange() <==> sh.Message().InRange())
    ensures |sh.Sends()| == sh.Message().Count() + 1
  {
    SentDatagram(sh, 0);
  }

  /** The sender and receiver halves meet here: datagram `i` of a message, padded or not, is filed
      under the sender and the message id, with content `i`. */
  lemma DatagramContent(sh: Shipment, sender: Endpoint, i: nat, d: bytes)
    requires sh.Fragmented() && sh.InRange() && i < |sh.Sends()|
    requires sh.Sends()[i] <= d && |d| < U32_LIMIT
    ensures sh.Message().InRange() && i <= sh.Message().Count()
    ensures Addressed(sender, d) == Some((Key(sender, ToInt32(sh.id)), Content(sh.Message(), i)))
  {
    MessageInRange(sh);
    ReadDatagram(sh, sender, i, d);
    ContentInRange(sh.Message(), i);
  }

  // ------------------------------------------------------------- transmissions

  /** Among the actions, the datagrams the receiver files under `k` are, in the order of their
      arrival, the datagrams of `ds` with the indices `order`, each possibly with padding. Datagrams
      of other keys and sweeps may come in between. */
  ghost predicate Transmission(actions: seq<Action>, k: Key, ds: seq<bytes>, order: seq<nat>)
    decreases |actions|
  {
    if actions == [] then order == []
    else if actions[0].Datagram? && Toward(actions[0], k).Some? then
      && order != [] && order[0] < |ds|
      && ds[order[0]] <= actions[0].data && |actions[0].data| < U32_LIMIT
      && Transmission(actions[1..], k, ds, order[1..])
    else Transmission(actions[1..], k, ds, order)
  }

  /** What an action of a transmission is to the receiver. */
  lemma ActionBrings(sh: Shipment, a: Action, i: nat)
    requires sh.Fragmented() && a.Datagram? && Toward(a, sh.FiledUnder()).Some?
    requires i < |sh.Sends()| && sh.Sends()[i] <= a.data && |a.data| < U32_LIMIT
    ensures sh.Message().Cuttable() && i <= sh.Message().Count()
    ensures Toward(a, sh.FiledUnder()) == Some(P.Arrive(Carried(sh.Message(), i), a.now))
    ensures Brings(sh.Message(), Toward(a, sh.FiledUnder()).value)
  {
    MessageInRange(sh);
    ReadDatagram(sh, a.sender, i, a.data);
  }

  lemma ActionIsInfo(sh: Shipment, a: Action, i: nat)
    requires sh.Fragmented() && a.Datagram? && Toward(a, sh.FiledUnder()).Some?
    requires i < |sh.Sends()| && sh.Sends()[i] <= a.data && |a.data| < U32_LIMIT
    ensures var e := Toward(a, sh.FiledUnder()).value;
      e.Arrive? && One(Index(e.msg) == 0) == One(i == 0)
  {
    ActionBrings(sh, a, i);
  }

  /** The receiver sees nothing but sweeps and the message's datagrams. */
  lemma {:induction false} TransmissionBrings(sh: Shipment, actions: seq<Action>, order: seq<nat>)
    requires sh.Fragmented()
    requires Transmission(actions, sh.FiledUnder(), sh.Sends(), order)
    ensures sh.Message().Cuttable()
    ensures forall e | e in Project(actions, sh.FiledUnder()) :: Brings(sh.Message(), e)
    decreases |actions|
  {
    MessageInRange(sh);
    if actions != [] {
      var a := actions[0];
      if a.Datagram? && Toward(a, sh.FiledUnder()).Some? {
        TransmissionBrings(sh, actions[1..], order[1..]);
        ActionBrings(sh, a, order[0]);
      } else {
        TransmissionBrings(sh, actions[1..], order);
      }
    }
  }

  /** Infos arrive as often as index 0 is in the order. */
  lemma {:induction false} InfoArrivals(sh: Shipment, actions: seq<Action>, order: seq<nat>)
    requires sh.Fragmented()
    requires Transmission(actions, sh.FiledUnder(), sh.Sends(), order)
    ensures Arrivals(Project(actions, sh.FiledUnder()), 0) == multiset(order)[0]
    decreases |actions|
  {
    var k := sh.FiledUnder();
    if actions != [] {
      var a := actions[0];
      if a.Datagram? && Toward(a, k).Some? {
        InfoArrivals(sh, actions[1..], order[1..]);
        ActionIsInfo(sh, a, order[0]);
        FirstArrival(Toward(a, k).value, Project(actions[1..], k), 0);
        CountFirst(order[0], order[1..], 0);
        assert order == [order[0]] + order[1..];
      } else {
        InfoArrivals(sh, actions[1..], order);
        if a.Purge? {
          FirstArrival(P.Expire(a.cutoff), Project(actions[1..], k), 0);
        }
      }
    }
  }

  /** In range it also sees which datagram each of them is. */
  lemma {:induction false} TransmissionBelongs(sh: Shipment, actions: seq<Action>, order: seq<nat>)
    requires sh.Fragmented() && sh.InRange()
    requires Transmission(actions, sh.FiledUnder(), sh.Sends(), order)
    ensures sh.Message().InRange()
    ensures AllBelong(sh.Message(), Project(actions, sh.FiledUnder()))
    ensures Indices(Project(actions, sh.FiledUnder())) == order
    decreases |actions|
  {
    MessageInRange(sh);
    var k := sh.FiledUnder();
    if actions != [] {
      var a := actions[0];
      var es := Project(actions, k);
      if a.Datagram? && Toward(a, k).Some? {
        TransmissionBelongs(sh, actions[1..], order[1..]);
        DatagramContent(sh, a.sender, order[0], a.data);
        assert es[0] == Toward(a, k).value && es[1..] == Project(actions[1..], k);
        assert Index(es[0].msg) == order[0];
      } else {
        TransmissionBelongs(sh, actions[1..], order);
        if a.Purge? {
          assert es[0] == P.Expire(a.cutoff) && es[1..] == Project(actions[1..], k);
        }
      }
    }
  }

  /** The datagrams with these indices, sent by the sender and arriving one after the other. */
  ghost function Playback(sh: Shipment, order: seq<nat>, now: int): seq<Action>
    requires sh.Fragmented() && (forall i | i in order :: i < |sh.Sends()|)
    decreases |order|
  {
    if order == [] then []
    else
      assert order[0] in order && forall i :: i in order[1..] ==> i in order;
      [Datagram(sh.sender, sh.Sends()[order[0]], now)] + Playback(sh, order[1..], now + 1)
  }

  lemma {:induction false} PlaybackTransmits(sh: Shipment, order: seq<nat>, now: int)
    requires sh.Fragmented() && (forall i | i in order :: i < |sh.Sends()|)
    ensures Transmission(Playback(sh, order, now), sh.FiledUnder(), sh.Sends(), order)
    ensures sh.Message().Cuttable() && Within(sh.Message(), order)
    ensures Project(Playback(sh, order, now), sh.FiledUnder()) == Play(sh.Message(), order, now)
    decreases |order|
  {
    MessageInRange(sh);
    if order != [] {
      var i := order[0];
      assert i in order && forall j :: j in order[1..] ==> j in order;
      PlaybackTransmits(sh, order[1..], now + 1);
      DatagramSizes(sh.magic, sh.id, sh.flat, sh.maxSize);
      ReadDatagram(sh, sh.sender, i, sh.Sends()[i]);
      assert Playback(sh, order, now)[1..] == Playback(sh, order[1..], now + 1);
    }
  }
}
