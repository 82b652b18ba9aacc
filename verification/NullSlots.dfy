/** Whether the datagrams of one message, lost, repeated and reordered as they may be, can make the
    receiver read a null slot: exactly from 2^32 bytes on, when some fragments are announced, but fewer
    than there are. */
module NullSlots {
  import opened Basics
  import opened Fragmentation
  import opened PackageStep
  import opened View
  import opened Refinement
  import opened OneMessage
  import opened Assembly

  /** Some but not all fragments are announced, and a fragment past the announced ones has a number that
      the receiver stores. */
  predicate Undercounts(m: Sent)
    requires m.Cuttable()
  {
    |m.flat| >= U32_LIMIT && 0 < AnnouncedCount(|m.flat|, m.p) < U32_MAX
  }

  // ------------------------------------------------------------------ only then

  /** The stored fragments are the message's, and those that an info cut off were undercounted. */
  ghost predicate Holds(m: Sent, v: View)
    requires m.Cuttable()
  {
    match v.info
    case None => forall k | k in v.frags :: k < m.Count() && k < U32_MAX
    case Some(a) =>
      && a.num == AnnouncedCount(|m.flat|, m.p)
      && (|v.frags| < v.received ==> a.num == 0 || Undercounts(m))
  }

  lemma CompleteHolds(m: Sent, v: View)
    requires m.Cuttable() && Holds(m, v)
    ensures Holds(m, Complete(v).0)
  {
  }

  /** A fragment with a number that is not announced can be stored only of an undercounted message. */
  lemma PastTheAnnounced(m: Sent, k: nat)
    requires m.Cuttable() && k < m.Count() && k < U32_MAX
    requires 0 < AnnouncedCount(|m.flat|, m.p) <= k
    ensures Undercounts(m)
  {
    if |m.flat| < U32_LIMIT {
      ChunkCount(m.flat, m.p);
      CountIsSharp(|m.flat|, m.p);
    }
  }

  lemma InfoHolds(m: Sent, v: View, e: Event)
    requires m.Cuttable() && Sane(v) && Holds(m, v) && v.info.None?
    requires e.Arrive? && e.msg == Carried(m, 0)
    ensures Holds(m, ViewStep(v, e).0)
    ensures ReadsNull(v, e) ==> Undercounts(m)
  {
    var c := AnnouncedCount(|m.flat|, m.p);
    BelowSize(v.frags, c);
    if k :| k in v.frags && k >= c && c > 0 {
      PastTheAnnounced(m, k);
    }
    CompleteHolds(m, View(Some(Announced(c, ToU32(|m.flat|))), Below(v.frags, c), v.received, e.now));
  }

  lemma FragmentHolds(m: Sent, v: View, num: uint32, payload: bytes, now: int)
    requires m.Cuttable() && Holds(m, v) && num < m.Count() && Fits(v, num) && num !in v.frags
    ensures Holds(m, Complete(View(v.info, v.frags[num := payload], v.received + 1, now)).0)
  {
    assert v.frags[num := payload].Keys == v.frags.Keys + {num};
    assert |v.frags.Keys| == |v.frags| && |v.frags[num := payload].Keys| == |v.frags[num := payload]|;
    CompleteHolds(m, View(v.info, v.frags[num := payload], v.received + 1, now));
  }

  lemma StepHolds(m: Sent, v: View, e: Event)
    requires m.Cuttable() && Sane(v) && Holds(m, v) && Brings(m, e)
    ensures Sane(ViewStep(v, e).0) && Holds(m, ViewStep(v, e).0)
    ensures ViewStep(v, e).1.Undefined? ==> Undercounts(m)
  {
    ReadsNullIff(v, e);
    if e.Arrive? {
      var i: nat :| i <= m.Count() && e.msg == Carried(m, i);
      if i > 0 {
        CarriedNumber(m, i);
        if Accepts(v, e) {
          FragmentHolds(m, v, e.msg.num, e.msg.payload.value, e.now);
        }
      } else if v.info.None? {
        InfoHolds(m, v, e);
      }
    }
  }

  lemma CarriedNumber(m: Sent, i: nat)
    requires m.Cuttable() && 0 < i <= m.Count()
    ensures Carried(m, i).Fragment? && Carried(m, i).num < m.Count()
  {
  }

  lemma {:induction false} OnlyUndercounted(m: Sent, v: View, es: seq<Event>)
    requires m.Cuttable() && Sane(v) && Holds(m, v) && (forall e | e in es :: Brings(m, e))
    ensures Undefined in ViewRun(v, es).1 ==> Undercounts(m)
    decreases |es|
  {
    if es != [] {
      assert es[0] in es && forall e :: e in es[1..] ==> e in es;
      StepHolds(m, v, es[0]);
      OnlyUndercounted(m, ViewStep(v, es[0]).0, es[1..]);
    }
  }

  // ---------------------------------------------------------------- but then

  /** The indices of fragments `k` to `c`, and then that of the info. */
  function Overtaking(k: nat, c: nat): seq<nat>
    decreases c - k
  {
    if k > c then [0] else [k + 1] + Overtaking(k + 1, c)
  }

  lemma {:induction false} OvertakingOnce(k: nat, c: nat)
    ensures forall i | i in Overtaking(k, c) :: i == 0 || k + 1 <= i <= c + 1
    ensures forall i, j | 0 <= i < j < |Overtaking(k, c)| :: Overtaking(k, c)[i] != Overtaking(k, c)[j]
    decreases c - k
  {
    if k <= c {
      OvertakingOnce(k + 1, c);
      var rest := Overtaking(k + 1, c);
      forall j | 0 <= j < |rest|
        ensures rest[j] != k + 1
      {
        assert rest[j] in rest;
      }
    }
  }

  /** The entry that holds fragments 1 to `k - 1`. */
  ghost predicate HoldsFrom1(v: View, k: nat) {
    && v.info.None? && v.received == k - 1 == |v.frags|
    && forall i :: i in v.frags <==> 1 <= i < k
  }

  lemma StoreNext(m: Sent, v: View, k: nat, now: int)
    requires m.Cuttable() && HoldsFrom1(v, k) && 1 <= k < m.Count() && k < U32_MAX
    ensures HoldsFrom1(ViewStep(v, Arrive(Carried(m, k + 1), now)).0, k + 1)
  {
    var payload := Chunks(m.flat, m.p)[k];
    assert Carried(m, k + 1) == Fragment(k, Some(payload));
    assert v.frags[k := payload].Keys == v.frags.Keys + {k};
    assert |v.frags.Keys| == |v.frags|;
  }

  lemma InfoOvertaken(m: Sent, v: View, now: int)
    requires m.Cuttable() && Undercounts(m) && Sane(v)
    requires HoldsFrom1(v, AnnouncedCount(|m.flat|, m.p) + 1)
    ensures ViewStep(v, Arrive(Carried(m, 0), now)).1.Undefined?
  {
    assert AnnouncedCount(|m.flat|, m.p) in v.frags;
    ReadsNullIff(v, Arrive(Carried(m, 0), now));
  }

  lemma {:induction false} PlayOvertaking(m: Sent, v: View, k: nat, c: nat, now: int)
    requires m.Cuttable() && Undercounts(m) && c == AnnouncedCount(|m.flat|, m.p) && Sane(v)
    requires HoldsFrom1(v, k) && 1 <= k <= c + 1
    requires Within(m, Overtaking(k, c))
    ensures Undefined in ViewRun(v, Play(m, Overtaking(k, c), now)).1
    decreases c + 1 - k
  {
    if k == c + 1 {
      InfoOvertaken(m, v, now);
      assert ViewRun(v, [Arrive(Carried(m, 0), now)]).1[0].Undefined?;
    } else {
      AnnouncedAtMost(m);
      OvertakingOnce(k + 1, c);
      StoreNext(m, v, k, now);
      var e := Arrive(Carried(m, k + 1), now);
      ReadsNullIff(v, e);
      PlayFirst(m, v, k + 1, Overtaking(k + 1, c), now);
      PlayOvertaking(m, ViewStep(v, e).0, k + 1, c, now + 1);
    }
  }

  /** The info, overtaken by fragments 1 to its count, makes the receiver read a null slot. */
  lemma OvertakenInfoReadsNull(m: Sent, now: int)
    requires m.Cuttable() && Undercounts(m)
    ensures var order := Overtaking(1, AnnouncedCount(|m.flat|, m.p));
      Within(m, order) && Undefined in Run(None, Play(m, order, now)).1
  {
    var c: nat := AnnouncedCount(|m.flat|, m.p);
    AnnouncedAtMost(m);
    OvertakingOnce(1, c);
    PlayOvertaking(m, EMPTY, 1, c, now);
    RunCorresponds(None, Play(m, Overtaking(1, c), now));
  }

  /** No other message's datagrams do, however they arrive. */
  lemma OwnDatagramsReadNull(m: Sent, entry: Option<Package>, es: seq<Event>)
    requires m.Cuttable() && Blank(entry) && (forall e | e in es :: Brings(m, e))
    ensures Undefined in Run(entry, es).1 ==> Undercounts(m)
  {
    RunCorresponds(entry, es);
    OnlyUndercounted(m, EMPTY, es);
  }
}
