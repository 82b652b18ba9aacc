/** What the ideal receiver of one message delivers: bounds under loss and repetition, and exactly
    one delivery, at the last arrival, for every order. */
module Delivery {
  import opened Basics
  import opened PackageStep
  import opened OneMessage
  import opened View
  import opened Assembly
  import opened NullSlots

  // ---------------------------------------------------- loss and repetition

  function One(b: bool): nat {
    if b then 1 else 0
  }

  /** How often the datagram with index `i` arrives. */
  function Arrivals(es: seq<Event>, i: nat): nat {
    if es == [] then 0
    else One(es[0].Arrive? && Index(es[0].msg) == i) + Arrivals(es[1..], i)
  }

  lemma FirstArrival(e: Event, es: seq<Event>, i: nat)
    ensures Arrivals([e] + es, i) == One(e.Arrive? && Index(e.msg) == i) + Arrivals(es, i)
  {
    assert ([e] + es)[1..] == es;
  }

  function Deliveries(replies: seq<Reply>): nat {
    if replies == [] then 0 else One(replies[0].Deliver?) + Deliveries(replies[1..])
  }

  lemma FirstDelivery(m: Sent, q: Pending, es: seq<Event>)
    requires 0 < m.p && es != []
    ensures var (next, reply) := IdealStep(m, q, es[0]);
      Deliveries(IdealRun(m, q, es).1) == One(reply.Deliver?) + Deliveries(IdealRun(m, next, es[1..]).1)
  {
    assert IdealRun(m, q, es).1[1..] == IdealRun(m, IdealStep(m, q, es[0]).0, es[1..]).1;
  }

  /** Every delivery uses up an arrival of every datagram of the message: what is pending at the end
      plus what was delivered never exceeds what was pending at the start plus what arrived. */
  lemma {:induction false} DeliveryBudget(m: Sent, q: Pending, es: seq<Event>, i: nat)
    requires 0 < m.p && i <= m.Count()
    ensures var (last, replies) := IdealRun(m, q, es);
      Deliveries(replies) + One(i in last.got) <= One(i in q.got) + Arrivals(es, i)
    decreases |es|
  {
    if es != [] {
      DeliveryBudget(m, IdealStep(m, q, es[0]).0, es[1..], i);
      FirstDelivery(m, q, es);
      assert i in Range(m.Count() + 1);
    }
  }

  lemma {:induction false} IdealReplies(m: Sent, q: Pending, es: seq<Event>)
    requires 0 < m.p
    ensures forall r | r in IdealRun(m, q, es).1 ::
      r == Quiet(OK) || r == Quiet(DuplicateDatagram) || r == Deliver(m.flat)
    decreases |es|
  {
    if es != [] {
      IdealReplies(m, IdealStep(m, q, es[0]).0, es[1..]);
    }
  }

  lemma {:induction false} NoDeliveries(replies: seq<Reply>)
    ensures Deliveries(replies) == 0 <==> forall r | r in replies :: !r.Deliver?
  {
    if replies != [] {
      NoDeliveries(replies[1..]);
    }
  }

  /** For any traffic: every delivery uses up an info. */
  lemma {:induction false} InfoBudget(v: View, es: seq<Event>)
    ensures var (last, replies) := ViewRun(v, es);
      Deliveries(replies) + One(last.info.Some?) <= One(v.info.Some?) + Arrivals(es, 0)
    decreases |es|
  {
    if es != [] {
      var (next, reply) := ViewStep(v, es[0]);
      InfoBudget(next, es[1..]);
      assert ViewRun(v, es).1[1..] == ViewRun(next, es[1..]).1;
    }
  }

  lemma BringsBelongs(m: Sent, es: seq<Event>)
    requires m.InRange() && (forall e | e in es :: Brings(m, e))
    ensures AllBelong(m, es)
  {
    forall e | e in es && e.Arrive?
      ensures Belongs(m, e)
    {
      var i: nat :| i <= m.Count() && e.msg == Carried(m, i);
      ContentInRange(m, i);
    }
  }

  lemma RepliesInRange(m: Sent, entry: Option<Package>, es: seq<Event>)
    requires m.InRange() && Blank(entry) && AllBelong(m, es)
    ensures forall r | r in Run(entry, es).1 ::
      r == Quiet(OK) || r == Quiet(DuplicateDatagram) || r == Deliver(m.flat)
    ensures forall i: nat | i <= m.Count() :: Deliveries(Run(entry, es).1) <= Arrivals(es, i)
  {
    ReceiverIsIdeal(m, entry, es);
    IdealReplies(m, IDLE, es);
    forall i: nat | i <= m.Count()
      ensures Deliveries(Run(entry, es).1) <= Arrivals(es, i)
    {
      DeliveryBudget(m, IDLE, es, i);
    }
  }

  /** Loss and duplication, for messages of any size. Whatever the network does to the datagrams of one
      message, what is delivered is put together from its fragments as announced; below 2^32 bytes that
      is the message or nothing. Every delivery takes an info. A null slot is read only of a message of
      2^32 bytes or more that announces too few fragments. In range the receiver reports nothing but
      duplicates, and it delivers at most as often as each single datagram arrived: a datagram that is
      lost for good means no delivery, and stragglers never deliver again. */
  lemma LossAndDuplication(m: Sent, entry: Option<Package>, es: seq<Event>)
    requires m.Cuttable() && Blank(entry) && (forall e | e in es :: Brings(m, e))
    ensures forall message | Deliver(message) in Run(entry, es).1 ::
      IsAssembly(m, message) && (|m.flat| < U32_LIMIT ==> m.InRange() && message == m.flat)
    ensures Deliveries(Run(entry, es).1) <= Arrivals(es, 0)
    ensures Undefined in Run(entry, es).1 ==> Undercounts(m)
    ensures m.InRange() ==> forall r | r in Run(entry, es).1 ::
      r == Quiet(OK) || r == Quiet(DuplicateDatagram) || r == Deliver(m.flat)
    ensures m.InRange() ==> forall i: nat | i <= m.Count() :: Deliveries(Run(entry, es).1) <= Arrivals(es, i)
  {
    var replies := Run(entry, es).1;
    forall message | Deliver(message) in replies
      ensures IsAssembly(m, message) && (|m.flat| < U32_LIMIT ==> m.InRange() && message == m.flat)
    {
      var j: nat :| j < |replies| && replies[j] == Deliver(message);
      OnlyAssemblies(m, entry, es, j);
      if |m.flat| < U32_LIMIT {
        SmallAssembly(m, message);
      }
    }
    RunCorresponds(entry, es);
    InfoBudget(EMPTY, es);
    OwnDatagramsReadNull(m, entry, es);
    if m.InRange() {
      BringsBelongs(m, es);
      RepliesInRange(m, entry, es);
    }
  }

  // ------------------------------------------------------------- every order

  function Indices(es: seq<Event>): seq<nat> {
    if es == [] then []
    else (if es[0].Arrive? then [Index(es[0].msg)] else []) + Indices(es[1..])
  }

  predicate HasArrival(es: seq<Event>) {
    exists e :: e in es && e.Arrive?
  }

  lemma {:induction false} ArrivalsAreCounted(es: seq<Event>, i: nat)
    ensures Arrivals(es, i) == multiset(Indices(es))[i]
  {
    if es != [] {
      ArrivalsAreCounted(es[1..], i);
      var first := if es[0].Arrive? then [Index(es[0].msg)] else [];
      assert Indices(es) == first + Indices(es[1..]);
    }
  }

  /** The replies of a message that comes through: silence, and the message at the last arrival. */
  function AtTheLast(flat: bytes, es: seq<Event>): (r: seq<Reply>)
    ensures |r| == |es|
  {
    if es == [] then []
    else
      [if es[0].Arrive? && !HasArrival(es[1..]) then Deliver(flat) else Quiet(OK)] + AtTheLast(flat, es[1..])
  }

  /** No sweep reaches a message that is under way: as long as more of it is to come, every cutoff is
      at most the time of its latest arrival. */
  ghost predicate Timely(pending: bool, last: int, es: seq<Event>)
    decreases |es|
  {
    es == [] ||
    match es[0]
    case Expire(cutoff) => (pending && HasArrival(es[1..]) ==> cutoff <= last) && Timely(pending, last, es[1..])
    case Arrive(_, now) => Timely(true, now, es[1..])
  }

  ghost predicate Distinct(s: seq<nat>) {
    forall i, j | 0 <= i < j < |s| :: s[i] != s[j]
  }

  lemma {:induction false} NoIndices(es: seq<Event>)
    ensures HasArrival(es) <==> Indices(es) != []
  {
    if es != [] {
      NoIndices(es[1..]);
      if HasArrival(es[1..]) {
        var e :| e in es[1..] && e.Arrive?;
        assert e in es;
      }
    }
  }

  lemma {:induction false} OnlySweeps(m: Sent, es: seq<Event>)
    requires 0 < m.p && !HasArrival(es)
    ensures IdealRun(m, IDLE, es) == (IDLE, AtTheLast(m.flat, es))
    decreases |es|
  {
    if es != [] {
      assert es[0] in es;
      assert forall e :: e in es[1..] ==> e in es;
      OnlySweeps(m, es[1..]);
    }
  }

  /** The indices are those that are missing, each once. */
  ghost predicate ToCome(m: Sent, q: Pending, missing: seq<nat>)
    requires 0 < m.p
  {
    && Sensible(m, q)
    && Distinct(missing)
    && (forall i | i in missing :: i <= m.Count() && i !in q.got)
    && (forall i: nat | i <= m.Count() :: i in q.got || i in missing)
  }

  lemma AllBelow(got: set<nat>, n: nat)
    requires forall i | i in got :: i < n
    requires forall i: nat | i < n :: i in got
    ensures got == Range(n)
  {
  }

  lemma MoreToCome(m: Sent, q: Pending, missing: seq<nat>)
    requires 0 < m.p && ToCome(m, q, missing)
    ensures missing != []
  {
    if forall i: nat | i <= m.Count() :: i in q.got {
      AllBelow(q.got, m.Count() + 1);
    }
  }

  lemma NextIndex(es: seq<Event>)
    requires es != []
    ensures Indices(es) == if es[0].Arrive? then [Index(es[0].msg)] + Indices(es[1..]) else Indices(es[1..])
  {
    assert [] + Indices(es[1..]) == Indices(es[1..]);
  }

  lemma TheLastOne(m: Sent, q: Pending, i: nat)
    requires 0 < m.p && ToCome(m, q, [i])
    ensures q.got + {i} == Range(m.Count() + 1)
  {
    assert i in [i];
  }

  lemma DistinctRest(i: nat, rest: seq<nat>)
    requires Distinct([i] + rest)
    ensures i !in rest && Distinct(rest)
  {
    var s := [i] + rest;
    forall k: nat | k < |rest|
      ensures rest[k] == s[k + 1] && rest[k] != i
    {
      assert s[0] != s[k + 1];
    }
    forall j: nat, k: nat | j < k < |rest|
      ensures rest[j] != rest[k]
    {
      assert s[j + 1] != s[k + 1];
    }
  }

  lemma OneOfMany(m: Sent, q: Pending, i: nat, rest: seq<nat>, now: int)
    requires 0 < m.p && rest != [] && ToCome(m, q, [i] + rest)
    ensures q.got + {i} != Range(m.Count() + 1)
    ensures ToCome(m, Pending(q.got + {i}, now), rest)
  {
    DistinctRest(i, rest);
    var missing := [i] + rest;
    assert forall k :: k in missing <==> k == i || k in rest;
    assert rest[0] in rest && rest[0] in Range(m.Count() + 1);
  }

  /** The next of the missing datagrams is new, and completes the message exactly if it is the last. */
  lemma AfterArrival(m: Sent, q: Pending, msg: Msg, rest: seq<nat>, now: int)
    requires 0 < m.p && ToCome(m, q, [Index(msg)] + rest)
    ensures var next := Pending(q.got + {Index(msg)}, now);
      if rest == [] then IdealStep(m, q, Arrive(msg, now)) == (IDLE, Deliver(m.flat))
      else IdealStep(m, q, Arrive(msg, now)) == (next, Quiet(OK)) && ToCome(m, next, rest)
  {
    assert ([Index(msg)] + rest)[0] == Index(msg);
    if rest == [] {
      assert [Index(msg)] + rest == [Index(msg)];
      TheLastOne(m, q, Index(msg));
    } else {
      OneOfMany(m, q, Index(msg), rest, now);
    }
  }

  lemma SweptInTime(m: Sent, q: Pending, cutoff: int)
    requires 0 < m.p && Sensible(m, q) && (q.got != {} ==> cutoff <= q.last)
    ensures IdealStep(m, q, Expire(cutoff)) == (q, Quiet(OK))
  {
  }

  /** The rest of a message completes it, whatever the order. */
  lemma {:induction false} InAnyOrder(m: Sent, q: Pending, es: seq<Event>)
    requires 0 < m.p && ToCome(m, q, Indices(es))
    requires Timely(q.got != {}, q.last, es)
    ensures IdealRun(m, q, es) == (IDLE, AtTheLast(m.flat, es))
    decreases |es|
  {
    MoreToCome(m, q, Indices(es));
    NoIndices(es);
    NextIndex(es);
    NoIndices(es[1..]);
    match es[0]
    case Expire(cutoff) =>
      SweptInTime(m, q, cutoff);
      InAnyOrder(m, q, es[1..]);
    case Arrive(msg, now) =>
      AfterArrival(m, q, msg, Indices(es[1..]), now);
      if HasArrival(es[1..]) {
        InAnyOrder(m, Pending(q.got + {Index(msg)}, now), es[1..]);
      } else {
        OnlySweeps(m, es[1..]);
      }
  }

  /** The numbers below `n`, each once, in some order. */
  ghost predicate Permutation(order: seq<nat>, n: nat) {
    multiset(order) == multiset(UpFrom(0, n))
  }

  lemma CountFirst(first: nat, rest: seq<nat>, x: nat)
    ensures multiset([first] + rest)[x] == One(x == first) + multiset(rest)[x]
  {
    assert multiset([first] + rest) == multiset{first} + multiset(rest);
  }

  lemma {:induction false} UpFromOnce(from: nat, n: nat, x: nat)
    ensures multiset(UpFrom(from, n))[x] == One(from <= x < n)
    decreases n - from
  {
    if from < n {
      UpFromOnce(from + 1, n, x);
      CountFirst(from, UpFrom(from + 1, n), x);
    }
  }

  lemma PermutationIsDistinct(order: seq<nat>, n: nat)
    requires Permutation(order, n)
    ensures Distinct(order)
    ensures forall i: nat :: i in order <==> i < n
  {
    forall i, j | 0 <= i < j < |order|
      ensures order[i] != order[j]
    {
      UpFromOnce(0, n, order[i]);
      assert order == order[..j] + order[j..];
      assert order[i] in order[..j] && order[j] in order[j..];
      assert multiset(order) == multiset(order[..j]) + multiset(order[j..]);
    }
    forall i: nat
      ensures i in order <==> i < n
    {
      UpFromOnce(0, n, i);
      assert i in order <==> i in multiset(order);
    }
  }

  lemma {:induction false} ErasedAfterDelivery(entry: Option<Package>, es: seq<Event>, flat: bytes)
    requires Run(entry, es).1 == AtTheLast(flat, es)
    requires HasArrival(es) || entry.None?
    ensures Run(entry, es).0.None?
    decreases |es|
  {
    if es != [] {
      var (next, reply) := Step(entry, es[0]);
      assert Run(entry, es).1[0] == reply && Run(entry, es).1[1..] == Run(next, es[1..]).1;
      assert AtTheLast(flat, es)[1..] == AtTheLast(flat, es[1..]);
      NoIndices(es);
      NoIndices(es[1..]);
      ErasedAfterDelivery(next, es[1..], flat);
    }
  }

  /** Round trip under reordering, for one key: when each datagram of the message arrives once, in any
      order, the receiver is silent until the last one, delivers the message there, and forgets it. */
  lemma AnyOrderDelivers(m: Sent, entry: Option<Package>, es: seq<Event>)
    requires m.InRange() && AllBelong(m, es) && Blank(entry)
    requires Permutation(Indices(es), m.Count() + 1)
    requires Timely(false, 0, es)
    ensures Run(entry, es) == (None, AtTheLast(m.flat, es))
  {
    PermutationIsDistinct(Indices(es), m.Count() + 1);
    ReceiverIsIdeal(m, entry, es);
    assert Sensible(m, IDLE) by { RangeSize(m.Count() + 1); }
    InAnyOrder(m, IDLE, es);
    NoIndices(es);
    ErasedAfterDelivery(entry, es, m.flat);
  }

  // ------------------------------------------------------- and no other way

  /** What was swept away while it was pending does not come again. */
  lemma SweptNeverDelivers(m: Sent, q: Pending, es: seq<Event>, i: nat)
    requires 0 < m.p && i <= m.Count() && i in q.got && i !in Indices(es)
    ensures Deliveries(IdealRun(m, IDLE, es).1) == 0
  {
    ArrivalsAreCounted(es, i);
    DeliveryBudget(m, IDLE, es, i);
  }

  /** A message that a sweep overtakes is never delivered. */
  lemma {:induction false} LateNeverDelivers(m: Sent, q: Pending, es: seq<Event>)
    requires 0 < m.p && ToCome(m, q, Indices(es))
    requires !Timely(q.got != {}, q.last, es)
    ensures Deliveries(IdealRun(m, q, es).1) == 0
    decreases |es|
  {
    FirstDelivery(m, q, es);
    MoreToCome(m, q, Indices(es));
    NoIndices(es);
    NextIndex(es);
    NoIndices(es[1..]);
    match es[0]
    case Expire(cutoff) =>
      if q.got != {} && cutoff > q.last {
        var i :| i in q.got;
        SweptNeverDelivers(m, q, es[1..], i);
      } else {
        SweptInTime(m, q, cutoff);
        LateNeverDelivers(m, q, es[1..]);
      }
    case Arrive(msg, now) =>
      AfterArrival(m, q, msg, Indices(es[1..]), now);
      if HasArrival(es[1..]) {
        LateNeverDelivers(m, Pending(q.got + {Index(msg)}, now), es[1..]);
      } else {
        NoArrivalIsTimely(true, now, es[1..]);
      }
  }

  lemma {:induction false} NoArrivalIsTimely(pending: bool, last: int, es: seq<Event>)
    requires !HasArrival(es)
    ensures Timely(pending, last, es)
    decreases |es|
  {
    if es != [] {
      assert es[0] in es;
      assert forall e :: e in es[1..] ==> e in es;
      NoArrivalIsTimely(pending, last, es[1..]);
    }
  }

  lemma {:induction false} DeliversAtTheLast(flat: bytes, es: seq<Event>)
    requires HasArrival(es)
    ensures Deliver(flat) in AtTheLast(flat, es)
  {
    NoIndices(es);
    NoIndices(es[1..]);
    if HasArrival(es[1..]) {
      DeliversAtTheLast(flat, es[1..]);
      assert AtTheLast(flat, es)[1..] == AtTheLast(flat, es[1..]);
    } else {
      assert AtTheLast(flat, es)[0] == Deliver(flat);
    }
  }

  /** When each datagram of a message arrives once, in any order, the message is delivered if and only
      if no sweep overtakes it. */
  lemma DeliveredIffTimely(m: Sent, entry: Option<Package>, es: seq<Event>)
    requires m.InRange() && AllBelong(m, es) && Blank(entry)
    requires Permutation(Indices(es), m.Count() + 1)
    ensures Deliver(m.flat) in Run(entry, es).1 <==> Timely(false, 0, es)
  {
    PermutationIsDistinct(Indices(es), m.Count() + 1);
    assert Sensible(m, IDLE) by { RangeSize(m.Count() + 1); }
    if Timely(false, 0, es) {
      AnyOrderDelivers(m, entry, es);
      NoIndices(es);
      assert 0 in Indices(es);
      DeliversAtTheLast(m.flat, es);
    } else {
      ReceiverIsIdeal(m, entry, es);
      LateNeverDelivers(m, IDLE, es);
      NoDeliveries(Run(entry, es).1);
    }
  }
}
