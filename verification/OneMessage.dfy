/** One fragmented message on the way: its info and its fragments, arriving in any order, repeatedly
    or not at all. For such a stream the receiver is a set of the indices seen. Index 0 is the info,
    index k + 1 is fragment k. */
module OneMessage {
  import opened Basics
  import opened Fragmentation
  import opened PackageStep
  import opened View
  import opened Refinement

  /** The message and the payload size it is cut by. */
  datatype Sent = Sent(flat: bytes, p: nat) {
    /** Non-empty, and the 32-bit fragment count is right. */
    ghost predicate InRange() {
      0 < p && flat != [] && |flat| + (p - 1) < U32_LIMIT
    }

    /** Something to cut, and a payload size of the sender's size type. */
    predicate Cuttable() {
      0 < p < U32_LIMIT && flat != []
    }

    function Count(): nat
      requires 0 < p
    {
      |Chunks(flat, p)|
    }
  }

  lemma CountInRange(m: Sent)
    requires m.InRange()
    ensures 0 < m.Count() < U32_LIMIT && m.Count() == FragmentCount(|m.flat|, m.p)
    ensures m.Count() == AnnouncedCount(|m.flat|, m.p)
  {
    ChunkCount(m.flat, m.p);
    CountIsSharp(|m.flat|, m.p);
    CountBounds(|m.flat|, m.p);
  }

  function Index(m: Msg): nat {
    match m
    case Info(_, _) => 0
    case Fragment(num, _) => num + 1
  }

  /** What datagram `i` of the message says, in 32-bit numbers: the announcement, or fragment `i - 1`. */
  function Carried(m: Sent, i: nat): Msg
    requires m.Cuttable() && i <= m.Count()
  {
    if i == 0 then Info(AnnouncedCount(|m.flat|, m.p), ToU32(|m.flat|))
    else Fragment(ToU32(i - 1), Some(Chunks(m.flat, m.p)[i - 1]))
  }

  /** The content of the datagram with this index, in range. */
  ghost function Content(m: Sent, i: nat): Msg
    requires m.InRange() && i <= m.Count()
  {
    CountInRange(m);
    if i == 0 then Info(m.Count(), |m.flat|) else Fragment(i - 1, Some(Chunks(m.flat, m.p)[i - 1]))
  }

  lemma ContentInRange(m: Sent, i: nat)
    requires m.InRange() && i <= m.Count()
    ensures m.Cuttable() && Content(m, i) == Carried(m, i) && Index(Carried(m, i)) == i
  {
    CountInRange(m);
  }

  /** The event is a sweep or brings one of the message's datagrams. */
  ghost predicate Belongs(m: Sent, e: Event)
    requires m.InRange()
  {
    e.Arrive? ==> Index(e.msg) <= m.Count() && e.msg == Content(m, Index(e.msg))
  }

  ghost predicate AllBelong(m: Sent, es: seq<Event>)
    requires m.InRange()
  {
    forall e | e in es :: Belongs(m, e)
  }

  // ------------------------------------------------------ the ideal receiver

  /** The indices received since the entry was last empty, and when the last one came. */
  datatype Pending = Pending(got: set<nat>, last: int)

  const IDLE: Pending := Pending({}, 0)

  function IdealStep(m: Sent, q: Pending, e: Event): (Pending, Reply)
    requires 0 < m.p
  {
    match e
    case Arrive(msg, now) =>
      var got := q.got + {Index(msg)};
      if Index(msg) in q.got then (q, Quiet(DuplicateDatagram))
      else if got == Range(m.Count() + 1) then (IDLE, Deliver(m.flat))
      else (Pending(got, now), Quiet(OK))
    case Expire(cutoff) =>
      (if q.last < cutoff then IDLE else q, Quiet(OK))
  }

  function IdealRun(m: Sent, q: Pending, es: seq<Event>): (r: (Pending, seq<Reply>))
    requires 0 < m.p
    ensures |r.1| == |es|
    decreases |es|
  {
    if es == [] then (q, [])
    else
      var (next, reply) := IdealStep(m, q, es[0]);
      var (last, replies) := IdealRun(m, next, es[1..]);
      (last, [reply] + replies)
  }

  ghost predicate Sensible(m: Sent, q: Pending)
    requires 0 < m.p
  {
    && (forall i | i in q.got :: i <= m.Count())
    && q.got != Range(m.Count() + 1)
    && (q.got == {} ==> q.last == 0)
  }

  /** What the specification holds when exactly these indices have been received. */
  ghost function Stored(m: Sent, got: set<nat>): map<nat, bytes>
    requires 0 < m.p
  {
    map k: nat | 0 <= k < m.Count() && k + 1 in got :: Chunks(m.flat, m.p)[k]
  }

  ghost function Holding(m: Sent, q: Pending): Spec
    requires m.InRange()
  {
    CountInRange(m);
    Spec(if 0 in q.got then Some(Announced(m.Count(), |m.flat|)) else None, Stored(m, q.got), q.last)
  }

  lemma {:induction false} InOrderIsPrefix(frags: map<nat, bytes>, parts: seq<bytes>, n: nat)
    requires n <= |parts|
    requires forall k: nat | k < n :: k in frags && frags[k] == parts[k]
    ensures InOrder(frags, n) == Concat(parts[..n])
  {
    if n > 0 {
      InOrderIsPrefix(frags, parts, n - 1);
      assert parts[..n] == parts[..n - 1] + [parts[n - 1]];
      ConcatAppend(parts[..n - 1], parts[n - 1]);
    }
  }

  /** All indices are there exactly when the info is and the fragments are 0 to n - 1. */
  lemma AllThere(m: Sent, got: set<nat>)
    requires 0 < m.p && forall i | i in got :: i <= m.Count()
    ensures got == Range(m.Count() + 1) <==> 0 in got && Stored(m, got).Keys == Range(m.Count())
  {
    if 0 in got && Stored(m, got).Keys == Range(m.Count()) {
      forall i: nat | i <= m.Count()
        ensures i in got
      {
        if i > 0 {
          assert i - 1 in Range(m.Count());
          assert i - 1 in Stored(m, got).Keys;
        }
      }
    }
  }

  lemma CompletesIdeally(m: Sent, got: set<nat>, now: int)
    requires m.InRange() && forall i | i in got :: i <= m.Count()
    ensures SpecComplete(Holding(m, Pending(got, now))) ==
      if got == Range(m.Count() + 1) then (NOTHING, Deliver(m.flat)) else (Holding(m, Pending(got, now)), Quiet(OK))
  {
    AllThere(m, got);
    if got == Range(m.Count() + 1) {
      var parts := Chunks(m.flat, m.p);
      InOrderIsPrefix(Stored(m, got), parts, m.Count());
      assert parts[..m.Count()] == parts;
      ChunksCover(m.flat, m.p);
    }
  }

  lemma IdleHoldsNothing(m: Sent)
    requires m.InRange()
    ensures Holding(m, IDLE) == NOTHING
  {
    assert Stored(m, {}) == map[];
  }

  /** On one message's datagrams the specification is the ideal receiver. */
  lemma SpecIsIdeal(m: Sent, q: Pending, e: Event)
    requires m.InRange() && Sensible(m, q) && Belongs(m, e)
    ensures var (next, reply) := IdealStep(m, q, e);
      SpecStep(Holding(m, q), e) == (Holding(m, next), reply) && Sensible(m, next)
  {
    IdleHoldsNothing(m);
    if e.Arrive? {
      var i := Index(e.msg);
      var got := q.got + {i};
      CountInRange(m);
      CompletesIdeally(m, got, e.now);
      if i == 0 {
        assert Stored(m, got) == Stored(m, q.got);
      } else {
        assert i in q.got <==> i - 1 in Stored(m, q.got);
        assert Stored(m, got) == Stored(m, q.got)[i - 1 := Chunks(m.flat, m.p)[i - 1]];
      }
    }
  }

  /** Its datagrams are well-numbered in every order. */
  lemma MessageIsWellNumbered(m: Sent, q: Pending, v: View, e: Event)
    requires m.InRange() && Belongs(m, e)
    requires Abstract(v) == Holding(m, q)
    ensures WellNumbered(v, e)
  {
  }

  lemma {:induction false} ViewIsIdeal(m: Sent, q: Pending, v: View, es: seq<Event>)
    requires m.InRange() && Sensible(m, q) && AllBelong(m, es)
    requires Tight(v) && AtRest(v) && Abstract(v) == Holding(m, q)
    ensures var (w, replies) := ViewRun(v, es);
      && IdealRun(m, q, es).1 == replies
      && Abstract(w) == Holding(m, IdealRun(m, q, es).0)
      && Tight(w) && AtRest(w)
    ensures WellNumberedRun(v, es)
    ensures Sensible(m, IdealRun(m, q, es).0)
    decreases |es|
  {
    if es != [] {
      MessageIsWellNumbered(m, q, v, es[0]);
      StepRefines(v, es[0]);
      SpecIsIdeal(m, q, es[0]);
      ViewIsIdeal(m, IdealStep(m, q, es[0]).0, ViewStep(v, es[0]).0, es[1..]);
    }
  }

  /** The entry holds nothing: absent, or an empty shell left by a rejected datagram. */
  ghost predicate Blank(entry: Option<Package>) {
    Wf(entry) && Of(entry) == EMPTY
  }

  lemma BlankIffIdle(m: Sent, q: Pending, w: View)
    requires m.InRange() && Sensible(m, q)
    requires Tight(w) && Abstract(w) == Holding(m, q)
    ensures w == EMPTY <==> q.got == {}
  {
    if q.got == {} {
      IdleHoldsNothing(m);
    } else {
      var i :| i in q.got;
      assert i == 0 || i - 1 in Stored(m, q.got);
    }
  }

  /** From a blank entry, the implementation answers every stream of the message's datagrams, lost,
      repeated, reordered and expired as it may be, exactly as the ideal receiver does; and the entry
      is blank again exactly when the ideal receiver holds nothing. */
  lemma ReceiverIsIdeal(m: Sent, entry: Option<Package>, es: seq<Event>)
    requires m.InRange() && AllBelong(m, es) && Blank(entry)
    ensures Run(entry, es).1 == IdealRun(m, IDLE, es).1
    ensures Blank(Run(entry, es).0) <==> IdealRun(m, IDLE, es).0.got == {}
    ensures WellNumberedRun(EMPTY, es)
  {
    IdleHoldsNothing(m);
    RunCorresponds(entry, es);
    assert Sensible(m, IDLE) by { RangeSize(m.Count() + 1); }
    ViewIsIdeal(m, IDLE, EMPTY, es);
    BlankIffIdle(m, IdealRun(m, IDLE, es).0, ViewRun(EMPTY, es).0);
  }
}
