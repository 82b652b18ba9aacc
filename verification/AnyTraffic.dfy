/** The whole receiver under any traffic at all: where it is the simple receiver, and exactly when it
    reads a null slot. */
module AnyTraffic {
  import opened Basics
  import opened Wire
  import opened Fragmentation
  import opened ReassemblyV5
  import opened Interleaving
  import opened Refinement
  import opened Shipments
  import P = PackageStep
  import V = View

  // ------------------------------------------------------- well-numbered traffic

  lemma {:induction false} ReplyIsForItsKey(actions: seq<Action>, replies: seq<P.Reply>, k: Key, j: nat)
    requires |actions| == |replies| && j < |actions|
    requires Toward(actions[j], k).Some?
    ensures replies[j] in RepliesFor(actions, replies, k)
    decreases |actions|
  {
    var rest := RepliesFor(actions[1..], replies[1..], k);
    if j > 0 {
      ReplyIsForItsKey(actions[1..], replies[1..], k, j - 1);
    } else {
      assert RepliesFor(actions, replies, k) == [replies[0]] + rest;
    }
  }

  /** The receiver refines the specification: as long as the traffic of a key is well-numbered, its
      replies are those of the receiver without counter and slots, whatever other keys do, and no
      complete message is left lying in its entry. */
  lemma ReceiverRefines(actions: seq<Action>, k: Key)
    requires WellNumberedRun(V.EMPTY, Project(actions, k))
    ensures var (last, replies) := RunAll(map[], actions);
      && RepliesFor(actions, replies, k) == SpecRun(NOTHING, Project(actions, k)).1
      && Abstract(V.Of(Lookup(last, k))) == SpecRun(NOTHING, Project(actions, k)).0
      && AtRest(V.Of(Lookup(last, k))) && Tight(V.Of(Lookup(last, k)))
      && (forall r | r in RepliesFor(actions, replies, k) :: !r.Undefined?)
  {
    Projection(map[], actions, k);
    RunRefines(None, Project(actions, k));
  }

  // ------------------------------------------------ rejected datagrams stutter

  ghost predicate AllWf(s: PackageMap) {
    forall k :: V.Wf(Lookup(s, k))
  }

  /** The two package maps look the same through every key. */
  ghost predicate Alike(s: PackageMap, t: PackageMap) {
    AllWf(s) && AllWf(t) && forall k :: V.Of(Lookup(s, k)) == V.Of(Lookup(t, k))
  }

  lemma EntryAlike(s: PackageMap, t: PackageMap, a: Action, k: Key)
    requires Alike(s, t)
    ensures V.Wf(Lookup(Act(s, a).0, k)) && V.Wf(Lookup(Act(t, a).0, k))
    ensures V.Of(Lookup(Act(s, a).0, k)) == V.Of(Lookup(Act(t, a).0, k))
    ensures Toward(a, k).Some? ==> Act(s, a).1 == Act(t, a).1
  {
    if Toward(a, k).Some? {
      StepIsLocal(s, a, k);
      StepIsLocal(t, a, k);
      V.StepCorresponds(Lookup(s, k), Toward(a, k).value);
      V.StepCorresponds(Lookup(t, k), Toward(a, k).value);
    } else {
      OtherKeysUntouched(s, a, k);
      OtherKeysUntouched(t, a, k);
    }
  }

  lemma ActAlike(s: PackageMap, t: PackageMap, a: Action)
    requires Alike(s, t)
    ensures Act(s, a).1 == Act(t, a).1 && Alike(Act(s, a).0, Act(t, a).0)
  {
    forall k
      ensures V.Wf(Lookup(Act(s, a).0, k)) && V.Wf(Lookup(Act(t, a).0, k))
      ensures V.Of(Lookup(Act(s, a).0, k)) == V.Of(Lookup(Act(t, a).0, k))
    {
      EntryAlike(s, t, a, k);
    }
    if a.Datagram? && Addressed(a.sender, a.data).Some? {
      EntryAlike(s, t, a, Addressed(a.sender, a.data).value.0);
    }
  }

  lemma {:induction false} RunAlike(s: PackageMap, t: PackageMap, actions: seq<Action>)
    requires Alike(s, t)
    ensures RunAll(s, actions).1 == RunAll(t, actions).1
    ensures Alike(RunAll(s, actions).0, RunAll(t, actions).0)
    decreases |actions|
  {
    if actions != [] {
      ActAlike(s, t, actions[0]);
      RunAlike(Act(s, actions[0]).0, Act(t, actions[0]).0, actions[1..]);
    }
  }

  lemma RejectedStepStays(v: V.View, e: P.Event)
    requires Rejects(V.ViewStep(v, e).1)
    ensures V.ViewStep(v, e).0 == v
  {
  }

  lemma RejectedActStays(s: PackageMap, a: Action)
    requires AllWf(s) && Rejects(Act(s, a).1)
    ensures Alike(s, Act(s, a).0)
  {
    forall k
      ensures V.Wf(Lookup(Act(s, a).0, k)) && V.Of(Lookup(s, k)) == V.Of(Lookup(Act(s, a).0, k))
    {
      if Toward(a, k).Some? {
        StepIsLocal(s, a, k);
        V.StepCorresponds(Lookup(s, k), Toward(a, k).value);
        RejectedStepStays(V.Of(Lookup(s, k)), Toward(a, k).value);
      } else {
        OtherKeysUntouched(s, a, k);
      }
    }
  }

  /** A datagram that is answered as duplicate or malformed can be inserted into any traffic or taken out
      of it: no other reply changes, and no key's visible entry. */
  lemma RejectedDatagramsStutter(s: PackageMap, before: seq<Action>, a: Action, after: seq<Action>)
    requires AllWf(s) && Rejects(Act(RunAll(s, before).0, a).1)
    ensures Alike(RunAll(s, before + [a] + after).0, RunAll(s, before + after).0)
    ensures exists tail ::
      && RunAll(s, before + after).1 == RunAll(s, before).1 + tail
      && RunAll(s, before + [a] + after).1 == RunAll(s, before).1 + ([Act(RunAll(s, before).0, a).1] + tail)
  {
    var m := RunAll(s, before).0;
    RunAlike(s, s, before);
    RejectedActStays(m, a);
    RunAlike(m, Act(m, a).0, after);
    RunAllConcat(s, before, after);
    RunAllConcat(s, before, [a] + after);
    RunAllFirst(m, a, after);
    assert before + [a] + after == before + ([a] + after);
    assert Alike(Act(m, a).0, Act(m, a).0);
    RunAlike(Act(m, a).0, Act(m, a).0, after);
  }

  // -------------------------------------------------------------- provenance

  lemma {:induction false} BroughtByPrefix(es: seq<P.Event>, n: nat)
    requires n <= |es|
    ensures BroughtBy(es[..n]) <= BroughtBy(es)
    decreases n
  {
    if n > 0 {
      assert es[..n][1..] == es[1..][..n - 1];
      BroughtByPrefix(es[1..], n - 1);
    }
  }

  lemma ComposedOfMore(message: bytes, seen: set<P.Msg>, more: set<P.Msg>)
    requires Composed(message, seen) && seen <= more
    ensures Composed(message, more)
  {
    var frags: map<nat, bytes>, n: uint32 :| ComposedOf(message, frags, n, seen);
    assert ComposedOf(message, frags, n, more);
  }

  /** Whatever arrives: a message delivered at a datagram `a` with a key is put together from what arrived
      for that key since its entry was last absent or empty. */
  lemma DeliveredProvenance(before: seq<Action>, since: seq<Action>, a: Action, k: Key)
    requires a.Datagram? && Toward(a, k).Some?
    requires V.Of(Lookup(RunAll(map[], before).0, k)) == V.EMPTY
    ensures var reply := Act(RunAll(map[], before + since).0, a).1;
      reply.Deliver? ==> Composed(reply.message, BroughtBy(Project(since + [a], k)))
  {
    var s, actions := RunAll(map[], before).0, since + [a];
    var reply := Act(RunAll(s, since).0, a).1;
    EntriesAreSane(before, k);
    RunAllConcat(map[], before, since);
    ActionAt(s, actions, |since|);
    assert actions[..|since|] == since;
    ReplyIsForItsKey(actions, RunAll(s, actions).1, k, |since|);
    Projection(s, actions, k);
    if reply.Deliver? {
      ReplyProvenance(Lookup(s, k), Project(actions, k), reply);
    }
  }

  lemma ReplyProvenance(entry: Option<P.Package>, es: seq<P.Event>, reply: P.Reply)
    requires V.Wf(entry) && V.Of(entry) == V.EMPTY
    requires reply in P.Run(entry, es).1 && reply.Deliver?
    ensures Composed(reply.message, BroughtBy(es))
  {
    var j: nat :| j < |es| && P.Run(entry, es).1[j] == reply;
    Provenance(entry, es, j);
    BroughtByPrefix(es, j + 1);
    ComposedOfMore(reply.message, BroughtBy(es[..j + 1]), BroughtBy(es));
  }

  // ------------------------------------------------------------- null slots

  lemma {:induction false} ActionAt(s: PackageMap, actions: seq<Action>, j: nat)
    requires j < |actions|
    ensures RunAll(s, actions).1[j] == Act(RunAll(s, actions[..j]).0, actions[j]).1
    decreases |actions|
  {
    var next := Act(s, actions[0]).0;
    if j > 0 {
      ActionAt(next, actions[1..], j - 1);
      assert RunAll(s, actions).1[j] == RunAll(next, actions[1..]).1[j - 1];
      assert actions[..j][1..] == actions[1..][..j - 1];
    }
  }

  /** Whatever arrived, every entry keeps the invariants. */
  lemma EntriesAreSane(actions: seq<Action>, k: Key)
    ensures var entry := Lookup(RunAll(map[], actions).0, k);
      V.Wf(entry) && Sane(V.Of(entry))
  {
    Projection(map[], actions, k);
    RunStaysSane(Project(actions, k));
  }

  /** Action `j` brings a message that reads a null slot, given the entry it is filed under. */
  ghost predicate ReadsNullAt(actions: seq<Action>, j: nat)
    requires j < |actions|
  {
    actions[j].Datagram? &&
    match Addressed(actions[j].sender, actions[j].data)
    case Some((k, m)) => ReadsNull(V.Of(Lookup(RunAll(map[], actions[..j]).0, k)), P.Arrive(m, actions[j].now))
    case None => false
  }

  lemma KeyedStepReadsNullIff(s: PackageMap, a: Action, k: Key)
    requires a.Datagram? && Toward(a, k).Some?
    requires V.Wf(Lookup(s, k)) && Sane(V.Of(Lookup(s, k)))
    ensures Act(s, a).1.Undefined? <==> ReadsNull(V.Of(Lookup(s, k)), Toward(a, k).value)
  {
    var entry, e := Lookup(s, k), Toward(a, k).value;
    StepIsLocal(s, a, k);
    V.StepCorresponds(entry, e);
    ReadsNullIff(V.Of(entry), e);
  }

  /** Whatever arrives: the receiver reads a null slot at a datagram if and only if the condition holds
      of it and of what is stored when it arrives. */
  lemma NullSlotReadIff(actions: seq<Action>, j: nat)
    requires j < |actions|
    ensures RunAll(map[], actions).1[j].Undefined? <==> ReadsNullAt(actions, j)
  {
    ActionAt(map[], actions, j);
    var a := actions[j];
    if a.Datagram? && Addressed(a.sender, a.data).Some? {
      var k := Addressed(a.sender, a.data).value.0;
      EntriesAreSane(actions[..j], k);
      KeyedStepReadsNullIff(RunAll(map[], actions[..j]).0, a, k);
    }
  }

  /** So exactly the runs without such a datagram read no null slot. */
  lemma NoNullSlotRead(actions: seq<Action>)
    ensures (forall r | r in RunAll(map[], actions).1 :: !r.Undefined?)
      <==> forall j: nat | j < |actions| :: !ReadsNullAt(actions, j)
  {
    var replies := RunAll(map[], actions).1;
    forall j: nat | j < |actions|
      ensures replies[j].Undefined? <==> ReadsNullAt(actions, j)
      ensures replies[j] in replies
    {
      NullSlotReadIff(actions, j);
    }
  }

  /** Traffic that is well-numbered for every key is among them. */
  lemma WellNumberedReadsNoNull(actions: seq<Action>)
    requires forall k :: WellNumberedRun(V.EMPTY, Project(actions, k))
    ensures forall r | r in RunAll(map[], actions).1 :: !r.Undefined?
  {
    var replies := RunAll(map[], actions).1;
    forall j: nat | j < |actions|
      ensures !replies[j].Undefined?
    {
      NullSlotReadIff(actions, j);
      if replies[j].Undefined? {
        var k := Addressed(actions[j].sender, actions[j].data).value.0;
        ReplyIsForItsKey(actions, replies, k, j);
        ReceiverRefines(actions, k);
      }
    }
  }

  lemma TwoForOneKey(a0: Action, a1: Action, e0: P.Event, e1: P.Event, replies: seq<P.Reply>, k: Key)
    requires Toward(a0, k) == Some(e0) && Toward(a1, k) == Some(e1) && |replies| == 2
    ensures Project([a0, a1], k) == [e0, e1] && RepliesFor([a0, a1], replies, k) == replies
  {
    assert [a0, a1][1..] == [a1] && [a1][1..] == [];
    assert Project([a1], k) == [e1];
    assert replies == [replies[0], replies[1]] && replies[1..] == [replies[1]] && [replies[1]][1..] == [];
    assert RepliesFor([a1], [replies[1]], k) == [replies[1]];
  }

  /** It does happen, on two datagrams of the format a sender writes: fragment 1, then an info that
      announces one fragment. */
  lemma NullSlotReadOnTheWire(sender: Endpoint, magic: bytes, id: uint32, payload: bytes, len: uint32, t0: int, t1: int)
    requires |magic| == 4 && HEADER_SIZE + |payload| < U32_LIMIT
    ensures var actions := [
        Datagram(sender, FragmentDatagram(magic, id, 1, payload), t0),
        Datagram(sender, InfoDatagram(magic, id, 1, len), t1)];
      RunAll(map[], actions).1 == [P.Quiet(P.OK), P.Undefined]
  {
    var d0, d1 := FragmentDatagram(magic, id, 1, payload), InfoDatagram(magic, id, 1, len);
    var a0, a1 := Datagram(sender, d0, t0), Datagram(sender, d1, t1);
    var k := Key(sender, ToInt32(id));
    ReadFragment(sender, magic, id, 1, payload, d0);
    ReadInfo(sender, magic, id, 1, len, d1);
    var e0, e1 := P.Arrive(P.Fragment(1, Some(payload)), t0), P.Arrive(P.Info(1, len), t1);
    assert Toward(a0, k) == Some(e0) && Toward(a1, k) == Some(e1);
    TwoForOneKey(a0, a1, e0, e1, RunAll(map[], [a0, a1]).1, k);
    Projection(map[], [a0, a1], k);
    NullSlotRead(payload, len, t0, t1);
  }
}
