/** Everything the receiver can make of the datagrams of one message, in range or not: which messages
    some order, repetition or loss of them delivers, and exactly when one of those is not the message
    that was sent. */
module Assembly {
  import opened Basics
  import opened Fragmentation
  import opened PackageStep
  import opened View
  import opened Refinement
  import opened OneMessage

  // -------------------------------------------------------------- assemblies

  /** A fragment for every announced number. The receiver sees the number modulo 2^32. */
  ghost predicate Choice(m: Sent, ch: seq<nat>)
    requires m.Cuttable()
  {
    && |ch| == AnnouncedCount(|m.flat|, m.p)
    && (forall k: nat | k < |ch| :: ch[k] < m.Count() && ToU32(ch[k]) == k)
  }

  ghost function Picked(m: Sent, ch: seq<nat>): (r: seq<bytes>)
    requires m.Cuttable() && Choice(m, ch)
    ensures |r| == |ch|
  {
    seq(|ch|, k requires 0 <= k < |ch| => Chunks(m.flat, m.p)[ch[k]])
  }

  ghost predicate AssembledFrom(m: Sent, message: bytes, ch: seq<nat>)
    requires m.Cuttable()
  {
    Choice(m, ch) && message == Concat(Picked(m, ch)) && |message| == ToU32(|m.flat|)
  }

  /** The message is put together from one fragment of `m` for every announced number, and has the
      announced length. */
  ghost predicate IsAssembly(m: Sent, message: bytes)
    requires m.Cuttable()
  {
    exists ch :: AssembledFrom(m, message, ch)
  }

  // ------------------------------------------------- only assemblies come out

  /** The event is a sweep or brings one of the message's datagrams, in range or not. */
  ghost predicate Brings(m: Sent, e: Event)
    requires m.Cuttable()
  {
    e.Arrive? ==> exists i: nat :: i <= m.Count() && e.msg == Carried(m, i)
  }

  lemma {:induction false} BroughtByOne(es: seq<Event>, x: Msg)
    requires x in BroughtBy(es)
    ensures exists e :: e in es && e.Arrive? && e.msg == x
  {
    if x in Brought(es[0]) {
      assert es[0] in es;
    } else {
      BroughtByOne(es[1..], x);
      var e :| e in es[1..] && e.Arrive? && e.msg == x;
      assert e in es;
    }
  }

  lemma BroughtIsCarried(m: Sent, es: seq<Event>, x: Msg)
    requires m.Cuttable() && (forall e | e in es :: Brings(m, e))
    requires x in BroughtBy(es)
    ensures exists i: nat :: i <= m.Count() && x == Carried(m, i)
  {
    BroughtByOne(es, x);
    var e :| e in es && e.Arrive? && e.msg == x;
    assert Brings(m, e);
  }

  /** The fragment of the message that the receiver took for number `k`. */
  ghost function Source(m: Sent, payload: bytes, k: uint32): (i: nat)
    requires m.Cuttable()
    requires exists i: nat :: i <= m.Count() && Fragment(k, Some(payload)) == Carried(m, i)
    ensures i < m.Count() && ToU32(i) == k && Chunks(m.flat, m.p)[i] == payload
  {
    var i: nat :| i <= m.Count() && Fragment(k, Some(payload)) == Carried(m, i);
    i - 1
  }

  lemma PickedInOrder(m: Sent, frags: map<nat, bytes>, ch: seq<nat>)
    requires m.Cuttable() && Choice(m, ch)
    requires forall k: nat | k < |ch| :: k in frags && frags[k] == Chunks(m.flat, m.p)[ch[k]]
    ensures InOrder(frags, |ch|) == Concat(Picked(m, ch))
  {
    InOrderIsPrefix(frags, Picked(m, ch), |ch|);
    assert Picked(m, ch)[..|ch|] == Picked(m, ch);
  }

  lemma ComposedIsAssembly(m: Sent, message: bytes, es: seq<Event>)
    requires m.Cuttable() && (forall e | e in es :: Brings(m, e))
    requires Composed(message, BroughtBy(es))
    ensures IsAssembly(m, message)
  {
    var frags: map<nat, bytes>, n: uint32 :| ComposedOf(message, frags, n, BroughtBy(es));
    BroughtIsCarried(m, es, Info(n, |message|));
    forall k: nat | k < n
      ensures exists i: nat :: i <= m.Count() && Fragment(k, Some(frags[k])) == Carried(m, i)
    {
      BroughtIsCarried(m, es, Fragment(k, Some(frags[k])));
    }
    var ch: seq<nat> := seq(n, k requires 0 <= k < n => Source(m, frags[k], k));
    assert Choice(m, ch);
    PickedInOrder(m, frags, ch);
    assert AssembledFrom(m, message, ch);
  }

  /** Whatever the network does to the datagrams of one message, every message delivered is put
      together from its fragments as announced. */
  lemma OnlyAssemblies(m: Sent, entry: Option<Package>, es: seq<Event>, j: nat)
    requires m.Cuttable() && Blank(entry) && (forall e | e in es :: Brings(m, e)) && j < |es|
    ensures var reply := Run(entry, es).1[j];
      reply.Deliver? ==> IsAssembly(m, reply.message)
  {
    Provenance(entry, es, j);
    assert forall e :: e in es[..j + 1] ==> e in es;
    if Run(entry, es).1[j].Deliver? {
      ComposedIsAssembly(m, Run(entry, es).1[j].message, es[..j + 1]);
    }
  }

  // ------------------------------------------------ and every assembly does

  /** The indices are those of datagrams of the message. */
  ghost predicate Within(m: Sent, order: seq<nat>)
    requires m.Cuttable()
  {
    forall i | i in order :: i <= m.Count()
  }

  /** The datagrams with these indices, one after the other. */
  ghost function Play(m: Sent, order: seq<nat>, now: int): seq<Event>
    requires m.Cuttable() && Within(m, order)
    decreases |order|
  {
    if order == [] then []
    else
      assert order[0] in order && forall i :: i in order[1..] ==> i in order;
      [Arrive(Carried(m, order[0]), now)] + Play(m, order[1..], now + 1)
  }

  lemma PlayFirst(m: Sent, v: View, first: nat, rest: seq<nat>, now: int)
    requires m.Cuttable() && first <= m.Count() && Within(m, rest)
    ensures Within(m, [first] + rest)
    ensures var (next, reply) := ViewStep(v, Arrive(Carried(m, first), now));
      ViewRun(v, Play(m, [first] + rest, now)).1 == [reply] + ViewRun(next, Play(m, rest, now + 1)).1
  {
    assert ([first] + rest)[1..] == rest;
    ViewRunFirst(v, Arrive(Carried(m, first), now), Play(m, rest, now + 1));
  }

  /** The indices of the chosen fragments, from number `k` on. */
  function AskFor(ch: seq<nat>, k: nat): seq<nat>
    decreases |ch| - k
  {
    if k >= |ch| then [] else [ch[k] + 1] + AskFor(ch, k + 1)
  }

  ghost function FirstOf(parts: seq<bytes>, k: nat): map<nat, bytes>
    requires k <= |parts|
  {
    map i: nat | 0 <= i < k :: parts[i]
  }

  lemma NextPart(parts: seq<bytes>, k: nat)
    requires k < |parts|
    ensures FirstOf(parts, k)[k := parts[k]] == FirstOf(parts, k + 1)
    ensures FirstOf(parts, k).Keys == Range(k)
  {
  }

  lemma AllParts(parts: seq<bytes>)
    ensures FirstOf(parts, |parts|).Keys == Range(|parts|)
    ensures InOrder(FirstOf(parts, |parts|), |parts|) == Concat(parts)
  {
    InOrderIsPrefix(FirstOf(parts, |parts|), parts, |parts|);
    assert parts[..|parts|] == parts;
  }

  lemma {:induction false} AskedAreThere(m: Sent, ch: seq<nat>, k: nat)
    requires m.Cuttable() && Choice(m, ch)
    ensures Within(m, AskFor(ch, k))
    decreases |ch| - k
  {
    if k < |ch| {
      AskedAreThere(m, ch, k + 1);
    }
  }

  /** The entry after the announcement and `k` of the chosen fragments. */
  ghost function Halfway(m: Sent, ch: seq<nat>, len: uint32, k: nat, last: int): View
    requires m.Cuttable() && Choice(m, ch) && k <= |ch|
  {
    View(Some(Announced(|ch|, len)), FirstOf(Picked(m, ch), k), k, last)
  }

  lemma PlayStep(m: Sent, message: bytes, ch: seq<nat>, k: nat, last: int, now: int)
    requires m.Cuttable() && AssembledFrom(m, message, ch) && k < |ch|
    ensures ViewStep(Halfway(m, ch, |message|, k, last), Arrive(Carried(m, ch[k] + 1), now)) ==
      if k + 1 < |ch| then (Halfway(m, ch, |message|, k + 1, now), Quiet(OK)) else (EMPTY, Deliver(message))
  {
    var parts := Picked(m, ch);
    var v := Halfway(m, ch, |message|, k, last);
    NextPart(parts, k);
    assert Carried(m, ch[k] + 1) == Fragment(k, Some(parts[k]));
    assert ViewStep(v, Arrive(Carried(m, ch[k] + 1), now)) == Complete(Halfway(m, ch, |message|, k + 1, now));
    AllParts(parts);
  }

  lemma DeliversNext(m: Sent, v: View, first: nat, rest: seq<nat>, now: int, next: View, reply: Reply, message: bytes)
    requires m.Cuttable() && first <= m.Count() && Within(m, rest)
    requires ViewStep(v, Arrive(Carried(m, first), now)) == (next, reply)
    requires reply == Deliver(message) || Deliver(message) in ViewRun(next, Play(m, rest, now + 1)).1
    ensures Within(m, [first] + rest)
    ensures Deliver(message) in ViewRun(v, Play(m, [first] + rest, now)).1
  {
    PlayFirst(m, v, first, rest, now);
  }

  /** The message still comes when one more of the chosen fragments is to come. */
  lemma PlayNext(m: Sent, message: bytes, ch: seq<nat>, k: nat, last: int, now: int)
    requires m.Cuttable() && AssembledFrom(m, message, ch) && k < |ch|
    requires Within(m, AskFor(ch, k)) && Within(m, AskFor(ch, k + 1))
    requires k + 1 < |ch| ==>
      Deliver(message) in ViewRun(Halfway(m, ch, |message|, k + 1, now), Play(m, AskFor(ch, k + 1), now + 1)).1
    ensures Deliver(message) in ViewRun(Halfway(m, ch, |message|, k, last), Play(m, AskFor(ch, k), now)).1
  {
    var v, i, rest := Halfway(m, ch, |message|, k, last), ch[k] + 1, AskFor(ch, k + 1);
    PlayStep(m, message, ch, k, last, now);
    if k + 1 < |ch| {
      DeliversNext(m, v, i, rest, now, Halfway(m, ch, |message|, k + 1, now), Quiet(OK), message);
    } else {
      DeliversNext(m, v, i, rest, now, EMPTY, Deliver(message), message);
    }
  }

  lemma {:induction false} PlayOn(m: Sent, message: bytes, ch: seq<nat>, k: nat, last: int, now: int)
    requires m.Cuttable() && AssembledFrom(m, message, ch) && k < |ch|
    requires Within(m, AskFor(ch, k))
    ensures Deliver(message) in ViewRun(Halfway(m, ch, |message|, k, last), Play(m, AskFor(ch, k), now)).1
    decreases |ch| - k
  {
    AskedAreThere(m, ch, k + 1);
    if k + 1 < |ch| {
      PlayOn(m, message, ch, k + 1, now, now + 1);
    }
    PlayNext(m, message, ch, k, last, now);
  }

  /** The announcement, then the chosen fragments. */
  function Rehearsal(ch: seq<nat>): seq<nat> {
    [0] + AskFor(ch, 0)
  }

  /** Every assembly is delivered: the announcement followed by the chosen fragments does it. */
  lemma EveryAssembly(m: Sent, message: bytes, ch: seq<nat>, now: int)
    requires m.Cuttable() && AssembledFrom(m, message, ch)
    ensures Within(m, Rehearsal(ch))
    ensures Deliver(message) in Run(None, Play(m, Rehearsal(ch), now)).1
  {
    AskedAreThere(m, ch, 0);
    var es := Play(m, Rehearsal(ch), now);
    assert Rehearsal(ch)[1..] == AskFor(ch, 0);
    RunCorresponds(None, es);
    assert es[0] == Arrive(Info(|ch|, |message|), now);
    assert Below(map[], |ch|) == map[] == FirstOf(Picked(m, ch), 0);
    var v := Halfway(m, ch, |message|, 0, now);
    assert ViewStep(EMPTY, es[0]) == Complete(v);
    if ch == [] {
      assert Range(0) == {} && InOrder(map[], 0) == [];
      assert ViewRun(EMPTY, es).1[0] == Deliver(message);
    } else {
      PlayOn(m, message, ch, 0, now, now + 1);
      assert ViewRun(EMPTY, es).1[1..] == ViewRun(v, es[1..]).1;
    }
  }

  // ------------------------------------------------------- their lengths

  lemma {:induction false} LengthOfFull(parts: seq<bytes>, p: nat)
    requires forall k: nat | k < |parts| :: |parts[k]| == p
    ensures |Concat(parts)| == |parts| * p
  {
    if parts != [] {
      LengthOfFull(parts[1..], p);
      MulSucc(|parts| - 1, p);
    }
  }

  lemma {:induction false} LengthButOne(parts: seq<bytes>, j: nat, p: nat)
    requires j < |parts| && (forall k: nat | k < |parts| && k != j :: |parts[k]| == p)
    ensures |Concat(parts)| == (|parts| - 1) * p + |parts[j]|
  {
    if j == 0 {
      LengthOfFull(parts[1..], p);
    } else {
      LengthButOne(parts[1..], j - 1, p);
      MulSucc(|parts| - 2, p);
    }
  }

  lemma LastChunk(m: Sent)
    requires m.Cuttable()
    ensures 0 < m.Count() == FragmentCount(|m.flat|, m.p)
    ensures |Chunks(m.flat, m.p)[m.Count() - 1]| == |m.flat| - (m.Count() - 1) * m.p
  {
    ChunkCount(m.flat, m.p);
    CountBounds(|m.flat|, m.p);
    ChunkAt(m.flat, m.p, m.Count() - 1);
    MulSucc(m.Count() - 1, m.p);
  }

  lemma LengthWithoutLast(m: Sent, ch: seq<nat>)
    requires m.Cuttable() && Choice(m, ch) && m.Count() - 1 !in ch
    ensures |Concat(Picked(m, ch))| == |ch| * m.p
  {
    ChunksCover(m.flat, m.p);
    forall k: nat | k < |ch|
      ensures |Picked(m, ch)[k]| == m.p
    {
      assert ch[k] in ch;
    }
    LengthOfFull(Picked(m, ch), m.p);
  }

  lemma LengthWithLast(m: Sent, ch: seq<nat>, j: nat)
    requires m.Cuttable() && Choice(m, ch) && j < |ch| && ch[j] == m.Count() - 1
    ensures |Concat(Picked(m, ch))| == (|ch| - 1) * m.p + |Chunks(m.flat, m.p)[m.Count() - 1]|
  {
    ChunksCover(m.flat, m.p);
    forall k: nat | k < |ch| && k != j
      ensures |Picked(m, ch)[k]| == m.p
    {
      assert ToU32(ch[k]) != ToU32(ch[j]);
    }
    LengthButOne(Picked(m, ch), j, m.p);
  }

  /** All fragments are full, unless the message's last one is among them; that can only stand for
      its own number modulo 2^32. */
  lemma AssemblyLength(m: Sent, ch: seq<nat>)
    requires m.Cuttable() && Choice(m, ch)
    ensures var n := m.Count();
      if n - 1 in ch then ToU32(n - 1) < |ch| && |Concat(Picked(m, ch))| == (|ch| - 1) * m.p + |m.flat| - (n - 1) * m.p
      else |Concat(Picked(m, ch))| == |ch| * m.p
  {
    LastChunk(m);
    if m.Count() - 1 in ch {
      var j: nat :| j < |ch| && ch[j] == m.Count() - 1;
      LengthWithLast(m, ch, j);
    } else {
      LengthWithoutLast(m, ch);
    }
  }

  // --------------------------------------------------------- in and out of range

  /** Never more fragments are announced than there are. */
  lemma AnnouncedAtMost(m: Sent)
    requires m.Cuttable()
    ensures AnnouncedCount(|m.flat|, m.p) <= m.Count()
    ensures |m.flat| >= U32_LIMIT ==> AnnouncedCount(|m.flat|, m.p) < m.Count()
  {
    ChunkCount(m.flat, m.p);
    if |m.flat| < U32_LIMIT {
      CountIsSharp(|m.flat|, m.p);
    } else {
      CountFallsShort(|m.flat|, m.p);
    }
  }

  /** Each announced number stands for its own fragment. */
  ghost function Plain(m: Sent): seq<nat>
    requires m.Cuttable()
  {
    UpFrom(0, AnnouncedCount(|m.flat|, m.p))
  }

  lemma PlainAt(m: Sent, k: nat)
    requires m.Cuttable() && k < |Plain(m)|
    ensures Plain(m)[k] == k && ToU32(k) == k
  {
    UpFromAt(0, AnnouncedCount(|m.flat|, m.p), k);
  }

  lemma PlainIsChoice(m: Sent)
    requires m.Cuttable()
    ensures AnnouncedCount(|m.flat|, m.p) <= m.Count()
    ensures Choice(m, Plain(m))
    ensures Picked(m, Plain(m)) == Chunks(m.flat, m.p)[..AnnouncedCount(|m.flat|, m.p)]
    ensures |m.flat| >= U32_LIMIT ==> m.Count() - 1 !in Plain(m)
  {
    AnnouncedAtMost(m);
    var c := AnnouncedCount(|m.flat|, m.p);
    forall k: nat | k < c
      ensures Plain(m)[k] == k && ToU32(k) == k
    {
      PlainAt(m, k);
    }
    assert Choice(m, Plain(m));
    assert Picked(m, Plain(m)) == Chunks(m.flat, m.p)[..c];
  }

  /** As long as the fragment numbers do not wrap around, no other choice is possible. */
  lemma OnlyPlain(m: Sent, ch: seq<nat>)
    requires m.Cuttable() && Choice(m, ch) && m.Count() <= U32_LIMIT
    ensures ch == Plain(m)
  {
    forall k: nat | k < |ch|
      ensures ch[k] == Plain(m)[k]
    {
      FitsU32(ch[k]);
      UpFromAt(0, |ch|, k);
    }
  }

  /** So whatever comes out is the beginning of the message, cut at the length modulo 2^32. */
  lemma AssemblyIsTruncation(m: Sent, message: bytes)
    requires m.Cuttable() && m.Count() <= U32_LIMIT && IsAssembly(m, message)
    ensures message == m.flat[..ToU32(|m.flat|)]
  {
    var ch :| AssembledFrom(m, message, ch);
    OnlyPlain(m, ch);
    PlainIsChoice(m);
    ConcatPrefix(Chunks(m.flat, m.p), AnnouncedCount(|m.flat|, m.p));
    ChunksCover(m.flat, m.p);
  }

  lemma CountOfSmall(m: Sent)
    requires m.Cuttable() && |m.flat| < U32_LIMIT
    ensures m.Count() < U32_LIMIT
  {
    ChunkCount(m.flat, m.p);
    CountFits(|m.flat|, m.p);
  }

  lemma NothingAnnounced(m: Sent, message: bytes)
    requires m.Cuttable() && IsAssembly(m, message)
    ensures AnnouncedCount(|m.flat|, m.p) == 0 ==> message == []
  {
    var ch :| AssembledFrom(m, message, ch);
    assert ch == [] ==> Picked(m, ch) == [];
  }

  lemma SmallAssembly(m: Sent, message: bytes)
    requires m.Cuttable() && |m.flat| < U32_LIMIT && IsAssembly(m, message)
    ensures m.InRange() && message == m.flat
  {
    CountOfSmall(m);
    AssemblyIsTruncation(m, message);
    CountIsSharp(|m.flat|, m.p);
    NothingAnnounced(m, message);
  }

  lemma PlainIsWhole(m: Sent)
    requires m.InRange()
    ensures Choice(m, Plain(m)) && Picked(m, Plain(m)) == Chunks(m.flat, m.p)
  {
    PlainIsChoice(m);
    CountInRange(m);
    var chunks := Chunks(m.flat, m.p);
    assert chunks[..|chunks|] == chunks;
  }

  lemma LengthFits(m: Sent)
    requires m.InRange()
    ensures m.Cuttable() && ToU32(|m.flat|) == |m.flat|
  {
  }

  lemma AssemblyInRange(m: Sent)
    requires m.InRange()
    ensures IsAssembly(m, m.flat)
  {
    LengthFits(m);
    PlainIsWhole(m);
    ChunksCover(m.flat, m.p);
    assert AssembledFrom(m, m.flat, Plain(m));
  }

  /** Below 2^32 bytes only the message itself comes out, and in range only. */
  lemma SmallAssemblyIff(m: Sent, message: bytes)
    requires m.Cuttable() && |m.flat| < U32_LIMIT
    ensures IsAssembly(m, message) <==> m.InRange() && message == m.flat
  {
    if IsAssembly(m, message) {
      SmallAssembly(m, message);
    }
    if m.InRange() {
      AssemblyInRange(m);
    }
  }

  /** Sizes that let fragments add up to the announced length although it is not the message's. Full
      fragments do if the length modulo 2^32 is a multiple of the payload and its rounding does not
      overflow. If there are more than 2^32 fragments, one of them can also be the last one. */
  predicate AddsUp(m: Sent)
    requires m.Cuttable()
  {
    var total := |m.flat|;
    var t, n, c := ToU32(total), FragmentCount(total, m.p), AnnouncedCount(total, m.p);
    || (t % m.p == 0 && t + (m.p - 1) < U32_LIMIT)
    || (ToU32(n - 1) < c && (n - c) * m.p == total - t)
  }

  /** The second case occurs: with payloads of 3 bytes, fragment 2^32 of 3 * 2^32 + 1 bytes carries one
      byte and the number 0, and one byte is announced. */
  lemma NumbersWrapAround(m: Sent)
    requires m.p == 3 && |m.flat| == 3 * U32_LIMIT + 1
    ensures AddsUp(m) && ToU32(|m.flat|) % m.p != 0
  {
    var total := 3 * U32_LIMIT + 1;
    DivIsDivision(total + 2, 3);
    DivIsDivision(3, 3);
    assert FragmentCount(total, 3) == U32_LIMIT + 1 && AnnouncedCount(total, 3) == 1;
  }

  lemma SumSwap(n: int, c: int, p: int)
    ensures (c - 1) * p - (n - 1) * p == -((n - c) * p)
  {
    assert (c - 1) * p - (n - 1) * p == ((c - 1) - (n - 1)) * p;
  }

  lemma AssemblyAddsUp(m: Sent, message: bytes)
    requires m.Cuttable() && IsAssembly(m, message)
    ensures AddsUp(m)
  {
    var ch :| AssembledFrom(m, message, ch);
    AssemblyLength(m, ch);
    LastChunk(m);
    FullFragmentsFit(|m.flat|, m.p);
    SumSwap(m.Count(), |ch|, m.p);
  }

  /** The plain choice with the last fragment standing in for its number modulo 2^32. */
  lemma LastStandsIn(m: Sent)
    requires m.Cuttable() && |m.flat| >= U32_LIMIT
    requires ToU32(m.Count() - 1) < AnnouncedCount(|m.flat|, m.p)
    ensures var ch := Plain(m)[ToU32(m.Count() - 1) := m.Count() - 1];
      Choice(m, ch) && m.Count() - 1 in ch
  {
    PlainIsChoice(m);
    var k := ToU32(m.Count() - 1);
    assert Plain(m)[k := m.Count() - 1][k] == m.Count() - 1;
  }

  lemma ChoiceAssembles(m: Sent, ch: seq<nat>)
    requires m.Cuttable() && Choice(m, ch) && |Concat(Picked(m, ch))| == ToU32(|m.flat|)
    ensures IsAssembly(m, Concat(Picked(m, ch)))
  {
    assert AssembledFrom(m, Concat(Picked(m, ch)), ch);
  }

  lemma FullFragmentsAssemble(m: Sent)
    requires m.Cuttable() && |m.flat| >= U32_LIMIT
    requires AnnouncedCount(|m.flat|, m.p) * m.p == ToU32(|m.flat|)
    ensures exists message :: IsAssembly(m, message)
  {
    PlainIsChoice(m);
    LengthWithoutLast(m, Plain(m));
    ChoiceAssembles(m, Plain(m));
  }

  lemma LastFragmentAssembles(m: Sent)
    requires m.Cuttable() && |m.flat| >= U32_LIMIT
    requires ToU32(m.Count() - 1) < AnnouncedCount(|m.flat|, m.p)
    requires (m.Count() - AnnouncedCount(|m.flat|, m.p)) * m.p == |m.flat| - ToU32(|m.flat|)
    ensures exists message :: IsAssembly(m, message)
  {
    var ch := Plain(m)[ToU32(m.Count() - 1) := m.Count() - 1];
    LastStandsIn(m);
    AssemblyLength(m, ch);
    SumSwap(m.Count(), |ch|, m.p);
    ChoiceAssembles(m, ch);
  }

  lemma AddsUpAssembles(m: Sent)
    requires m.Cuttable() && |m.flat| >= U32_LIMIT && AddsUp(m)
    ensures exists message :: IsAssembly(m, message)
  {
    LastChunk(m);
    FullFragmentsFit(|m.flat|, m.p);
    if AnnouncedCount(|m.flat|, m.p) * m.p == ToU32(|m.flat|) {
      FullFragmentsAssemble(m);
    } else {
      LastFragmentAssembles(m);
    }
  }

  lemma AssemblyHasAnnouncedLength(m: Sent, message: bytes)
    requires m.Cuttable() && IsAssembly(m, message)
    ensures |message| == ToU32(|m.flat|)
    ensures |m.flat| >= U32_LIMIT ==> message != m.flat
  {
  }

  lemma AssemblyOutOfRange(m: Sent, message: bytes)
    requires m.Cuttable() && !m.InRange() && IsAssembly(m, message)
    ensures message != m.flat && |m.flat| >= U32_LIMIT && AddsUp(m)
  {
    if |m.flat| < U32_LIMIT {
      SmallAssembly(m, message);
    } else {
      AssemblyHasAnnouncedLength(m, message);
      AssemblyAddsUp(m, message);
    }
  }

  lemma NumbersFit(m: Sent)
    requires m.Cuttable() && m.Count() <= U32_LIMIT && |m.flat| >= U32_LIMIT
    ensures ToU32(m.Count() - 1) >= AnnouncedCount(|m.flat|, m.p)
  {
    AnnouncedAtMost(m);
  }

  /** While the fragment numbers fit 32 bits, what comes out is the truncated message or nothing. */
  lemma TruncationIff(m: Sent, message: bytes)
    requires m.Cuttable() && m.Count() <= U32_LIMIT && |m.flat| >= U32_LIMIT
    ensures var t := ToU32(|m.flat|);
      IsAssembly(m, message) <==> message == m.flat[..t] && t % m.p == 0 && t + (m.p - 1) < U32_LIMIT
  {
    NumbersFit(m);
    ChunkCount(m.flat, m.p);
    if IsAssembly(m, message) {
      AssemblyIsTruncation(m, message);
      AssemblyAddsUp(m, message);
    } else if AddsUp(m) {
      AddsUpAssembles(m);
      var other :| IsAssembly(m, other);
      AssemblyIsTruncation(m, other);
    }
  }

  /** Something other than the message can come out exactly if it has 2^32 bytes or more and the sizes
      add up. */
  lemma WrongAssemblyIff(m: Sent)
    requires m.Cuttable()
    ensures (exists message :: IsAssembly(m, message) && message != m.flat)
      <==> |m.flat| >= U32_LIMIT && AddsUp(m)
  {
    if message :| IsAssembly(m, message) && message != m.flat {
      if |m.flat| < U32_LIMIT {
        SmallAssemblyIff(m, message);
      } else {
        AssemblyAddsUp(m, message);
      }
    }
    if |m.flat| >= U32_LIMIT && AddsUp(m) {
      AddsUpAssembles(m);
      var message :| IsAssembly(m, message);
      assert |message| < |m.flat|;
    }
  }
}
