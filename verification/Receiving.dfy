/** What the receiver answers to any datagram, in terms of the datagram's bytes and of what is stored for
    its key, and what it keeps. */
module Receiving {
  import opened Basics
  import opened Wire
  import opened Format
  import opened ReassemblyV5
  import opened Interleaving
  import P = PackageStep
  import V = View

  /** A 32-bit number read as a signed one. */
  function Signed(n: nat): (r: int)
    requires n < 0x1_0000_0000
  {
    if n < 0x8000_0000 then n else n - 0x1_0000_0000
  }

  /** The key a datagram with a header belongs to: its sender and its signed id. */
  function KeyOf(sender: Endpoint, d: bytes): Key
    requires |d| >= 24
  {
    Key(sender, Signed(Number(d, 12)))
  }

  // ---------------------------------------------------------- by datagram type

  /** Datagrams that are too short for a header, or of an unknown type, are malformed and change nothing. */
  lemma UnknownDatagram(s: PackageMap, sender: Endpoint, d: bytes, now: int)
    requires |d| < 24 || Number(d, 8) !in {1, 2, 3}
    ensures Handle(s, sender, d, now) == (s, P.Quiet(P.MalformedDatagram))
  {
    if |d| >= 24 {
      FieldIsNumber(d, 8);
    }
  }

  /** A self-contained message is delivered if and only if the datagram carries as many bytes as it
      announces; exactly those are delivered, and nothing is stored. */
  lemma WholeDatagramAnswer(s: PackageMap, sender: Endpoint, d: bytes, now: int)
    requires 24 <= |d| < U32_LIMIT && Number(d, 8) == 3
    ensures var len := Number(d, 20);
      Handle(s, sender, d, now)
        == (s, if len <= |d| - 24 then P.Deliver(d[24..24 + len]) else P.Quiet(P.MalformedDatagram))
  {
    FieldIsNumber(d, 8);
    FieldIsNumber(d, 20);
  }

  // ------------------------------------------------- fragments and infos

  /** A datagram for a key leaves all other entries alone. An entry remains for the key unless the answer
      is a message or the report that the message had the wrong size. */
  lemma EntryRemainsIff(s: PackageMap, sender: Endpoint, d: bytes, now: int)
    requires |d| >= 24 && Number(d, 8) in {1, 2}
    ensures var (next, reply) := Handle(s, sender, d, now);
      && (KeyOf(sender, d) in next <==> !reply.Deliver? && reply != P.Quiet(P.MalformedReassembledMessage))
      && (forall k | k != KeyOf(sender, d) :: Lookup(next, k) == Lookup(s, k))
  {
    FieldIsNumber(d, 8);
    FieldIsNumber(d, 12);
  }

  /** What the datagram means to the entry of its key. */
  function Meaning(d: bytes): P.Msg
    requires 24 <= |d| && Number(d, 8) in {1, 2}
  {
    if Number(d, 8) == 1 then P.Info(Number(d, 16), Number(d, 20))
    else P.Fragment(Number(d, 16), if Number(d, 20) <= |d| - 24 then Some(d[24..24 + Number(d, 20)]) else None)
  }

  lemma StepOfDatagram(s: PackageMap, sender: Endpoint, d: bytes, now: int)
    requires 24 <= |d| < U32_LIMIT && Number(d, 8) in {1, 2}
    requires V.Wf(Lookup(s, KeyOf(sender, d)))
    ensures var (next, reply) := Handle(s, sender, d, now);
      V.ViewStep(V.Of(Lookup(s, KeyOf(sender, d))), P.Arrive(Meaning(d), now))
        == (V.Of(Lookup(next, KeyOf(sender, d))), reply)
  {
    FieldIsNumber(d, 8);
    FieldIsNumber(d, 12);
    FieldIsNumber(d, 16);
    FieldIsNumber(d, 20);
    var a, k := Datagram(sender, d, now), KeyOf(sender, d);
    assert Toward(a, k) == Some(P.Arrive(Meaning(d), now));
    StepIsLocal(s, a, k);
    V.StepCorresponds(Lookup(s, k), P.Arrive(Meaning(d), now));
  }

  /** The fragment number is out of range: not below the announced count, or, before the info is there,
      the one number whose successor is 0. */
  predicate OutOfRange(v: V.View, num: nat) {
    if v.info.Some? then num >= v.info.value.num else num == 0xFFFF_FFFF
  }

  /** A fragment is refused if its number is out of range, if it is stored already, or if the datagram
      carries fewer bytes than it announces; then nothing is stored. */
  lemma FragmentRefused(s: PackageMap, sender: Endpoint, d: bytes, now: int)
    requires 24 <= |d| < U32_LIMIT && Number(d, 8) == 2
    requires V.Wf(Lookup(s, KeyOf(sender, d)))
    requires var v, num := V.Of(Lookup(s, KeyOf(sender, d))), Number(d, 16);
      OutOfRange(v, num) || num in v.frags || Number(d, 20) > |d| - 24
    ensures var (next, reply) := Handle(s, sender, d, now);
      var v, num := V.Of(Lookup(s, KeyOf(sender, d))), Number(d, 16);
      && V.Of(Lookup(next, KeyOf(sender, d))) == v
      && reply == P.Quiet(if !OutOfRange(v, num) && num in v.frags then P.DuplicateDatagram else P.MalformedDatagram)
  {
    StepOfDatagram(s, sender, d, now);
  }

  /** Fragments 0 to n - 1 are there. */
  ghost predicate AllArrived(v: V.View, n: nat) {
    forall k: nat | k < n :: k in v.frags
  }

  /** What becomes of an entry with contents `w` after something was stored in it: it waits for more, or
      it is taken for complete. Then the message is delivered if it has the announced length, and the
      entry is gone in any case. */
  ghost predicate Settled(w: V.View, k: Key, next: PackageMap, reply: P.Reply) {
    if w.info.None? || w.received != w.info.value.num then
      reply == P.Quiet(P.OK) && V.Of(Lookup(next, k)) == w
    else if AllArrived(w, w.info.value.num) then
      && k !in next
      && var message := V.InOrder(w.frags, w.info.value.num);
      reply == if |message| == w.info.value.len then P.Deliver(message) else P.Quiet(P.MalformedReassembledMessage)
    else
      reply == P.Undefined
  }

  lemma CompleteSettles(w: V.View, k: Key, next: PackageMap, reply: P.Reply)
    requires w.info.Some? ==> forall i | i in w.frags :: i < w.info.value.num
    requires V.Complete(w) == (V.Of(Lookup(next, k)), reply)
    requires k in next <==> !reply.Deliver? && reply != P.Quiet(P.MalformedReassembledMessage)
    ensures Settled(w, k, next, reply)
  {
    if w.info.Some? && AllArrived(w, w.info.value.num) {
      assert w.frags.Keys == Range(w.info.value.num);
    }
  }

  lemma StoredBelow(entry: Option<P.Package>, k: nat)
    requires V.Wf(entry) && V.Of(entry).info.Some? && k in V.Of(entry).frags
    ensures k < V.Of(entry).info.value.num
  {
  }

  /** Any other fragment is stored with exactly the announced bytes and counted. */
  lemma FragmentStored(s: PackageMap, sender: Endpoint, d: bytes, now: int)
    requires 24 <= |d| < U32_LIMIT && Number(d, 8) == 2
    requires V.Wf(Lookup(s, KeyOf(sender, d)))
    requires var v, num := V.Of(Lookup(s, KeyOf(sender, d))), Number(d, 16);
      !OutOfRange(v, num) && num !in v.frags && Number(d, 20) <= |d| - 24
    ensures var (next, reply) := Handle(s, sender, d, now);
      var v, num := V.Of(Lookup(s, KeyOf(sender, d))), Number(d, 16);
      var payload := d[24..24 + Number(d, 20)];
      Settled(V.View(v.info, v.frags[num := payload], v.received + 1, now), KeyOf(sender, d), next, reply)
  {
    var entry := Lookup(s, KeyOf(sender, d));
    var v, num, payload := V.Of(entry), Number(d, 16), d[24..24 + Number(d, 20)];
    var w := V.View(v.info, v.frags[num := payload], v.received + 1, now);
    var (next, reply) := Handle(s, sender, d, now);
    StepOfDatagram(s, sender, d, now);
    EntryRemainsIff(s, sender, d, now);
    if v.info.Some? {
      forall i | i in w.frags
        ensures i < w.info.value.num
      {
        if i != num {
          StoredBelow(entry, i);
        }
      }
    }
    CompleteSettles(w, KeyOf(sender, d), next, reply);
  }

  /** An info is a duplicate if one is there. Otherwise its count and length are taken over, and fragments
      with numbers from the count on are dropped, though not from the counter. */
  lemma InfoAnswer(s: PackageMap, sender: Endpoint, d: bytes, now: int)
    requires 24 <= |d| < U32_LIMIT && Number(d, 8) == 1
    requires V.Wf(Lookup(s, KeyOf(sender, d)))
    ensures var (next, reply) := Handle(s, sender, d, now);
      var v, num, k := V.Of(Lookup(s, KeyOf(sender, d))), Number(d, 16), KeyOf(sender, d);
      if v.info.Some? then reply == P.Quiet(P.DuplicateDatagram) && V.Of(Lookup(next, k)) == v
      else
        var kept := map i | i in v.frags && i < num :: v.frags[i];
        Settled(V.View(Some(V.Announced(num, Number(d, 20))), kept, v.received, now), k, next, reply)
  {
    var v, num, k := V.Of(Lookup(s, KeyOf(sender, d))), Number(d, 16), KeyOf(sender, d);
    var (next, reply) := Handle(s, sender, d, now);
    StepOfDatagram(s, sender, d, now);
    EntryRemainsIff(s, sender, d, now);
    if v.info.None? {
      var w := V.View(Some(V.Announced(num, Number(d, 20))), V.Below(v.frags, num), v.received, now);
      assert w.frags == map i | i in v.frags && i < num :: v.frags[i];
      CompleteSettles(w, k, next, reply);
    }
  }
}
