/** What the counter-and-vector receiver amounts to: on well-numbered traffic it is a receiver that
    delivers when the info is there and the stored fragments are exactly 0 to n - 1. Also: what
    happens on other traffic, why rejected datagrams do not matter, and where a message comes from. */
module Refinement {
  import opened Basics
  import opened PackageStep
  import opened View

  // ------------------------------------------------- rejected datagrams stutter

  predicate Rejects(r: Reply) {
    r == Quiet(DuplicateDatagram) || r == Quiet(MalformedDatagram)
  }

  lemma {:induction false} ViewRunConcat(v: View, a: seq<Event>, b: seq<Event>)
    ensures ViewRun(v, a + b) == (ViewRun(ViewRun(v, a).0, b).0, ViewRun(v, a).1 + ViewRun(ViewRun(v, a).0, b).1)
    decreases |a|
  {
    if a == [] {
      assert a + b == b;
      assert ViewRun(v, a).1 + ViewRun(v, b).1 == ViewRun(v, b).1;
    } else {
      var (next, reply) := ViewStep(v, a[0]);
      assert (a + b)[1..] == a[1..] + b;
      ViewRunConcat(next, a[1..], b);
      var rest := ViewRun(ViewRun(next, a[1..]).0, b).1;
      assert [reply] + (ViewRun(next, a[1..]).1 + rest) == ([reply] + ViewRun(next, a[1..]).1) + rest;
    }
  }

  lemma StutterInView(v: View, before: seq<Event>, e: Event, after: seq<Event>)
    requires Rejects(ViewStep(ViewRun(v, before).0, e).1)
    ensures ViewRun(v, before + [e] + after).0 == ViewRun(v, before + after).0
    ensures ViewRun(v, before + after).1 == ViewRun(v, before).1 + ViewRun(ViewRun(v, before).0, after).1
    ensures ViewRun(v, before + [e] + after).1
      == ViewRun(v, before).1 + ([ViewStep(ViewRun(v, before).0, e).1] + ViewRun(ViewRun(v, before).0, after).1)
  {
    var w := ViewRun(v, before).0;
    assert ViewStep(w, e).0 == w;
    ViewRunConcat(v, before, after);
    ViewRunConcat(v, before, [e] + after);
    assert before + [e] + after == before + ([e] + after);
    assert ([e] + after)[1..] == after;
  }

  /** A step answered with an error of the datagram can be inserted into any run or deleted from it:
      all other replies and the visible final state stay the same. */
  lemma RejectedStepsStutter(entry: Option<Package>, before: seq<Event>, e: Event, after: seq<Event>)
    requires Wf(entry)
    requires Rejects(Step(Run(entry, before).0, e).1)
    ensures Of(Run(entry, before + [e] + after).0) == Of(Run(entry, before + after).0)
    ensures exists tail ::
      && Run(entry, before + after).1 == Run(entry, before).1 + tail
      && Run(entry, before + [e] + after).1 == Run(entry, before).1 + ([Step(Run(entry, before).0, e).1] + tail)
  {
    RunCorresponds(entry, before);
    RunCorresponds(entry, before + [e] + after);
    RunCorresponds(entry, before + after);
    StepCorresponds(Run(entry, before).0, e);
    StutterInView(Of(entry), before, e, after);
  }

  // ---------------------------------------------------------- the simple receiver

  /** The specification: no counter and no slots. */
  datatype Spec = Spec(info: Option<Announced>, frags: map<nat, bytes>, last: int)

  const NOTHING: Spec := Spec(None, map[], 0)

  function SpecComplete(s: Spec): (Spec, Reply) {
    if s.info.None? || s.frags.Keys != Range(s.info.value.num) then (s, Quiet(OK))
    else
      var message := InOrder(s.frags, s.info.value.num);
      (NOTHING, if |message| == s.info.value.len then Deliver(message) else Quiet(MalformedReassembledMessage))
  }

  function SpecStep(s: Spec, e: Event): (Spec, Reply) {
    match e
    case Arrive(Info(num, len), now) =>
      if s.info.Some? then (s, Quiet(DuplicateDatagram))
      else SpecComplete(Spec(Some(Announced(num, len)), s.frags, now))
    case Arrive(Fragment(num, payload), now) =>
      if !(if s.info.Some? then num < s.info.value.num else num != U32_MAX) then (s, Quiet(MalformedDatagram))
      else if num in s.frags then (s, Quiet(DuplicateDatagram))
      else if payload.None? then (s, Quiet(MalformedDatagram))
      else SpecComplete(Spec(s.info, s.frags[num := payload.value], now))
    case Expire(cutoff) =>
      (if s.last < cutoff then NOTHING else s, Quiet(OK))
  }

  function SpecRun(s: Spec, es: seq<Event>): (r: (Spec, seq<Reply>))
    ensures |r.1| == |es|
    decreases |es|
  {
    if es == [] then (s, [])
    else
      var (next, reply) := SpecStep(s, es[0]);
      var (last, replies) := SpecRun(next, es[1..]);
      (last, [reply] + replies)
  }

  function Abstract(v: View): Spec {
    Spec(v.info, v.frags, v.last)
  }

  // ------------------------------------------------------------ well-numbered traffic

  /** The counter is the number of stored fragments, and all of them are below the announced count. */
  ghost predicate Tight(v: View) {
    && v.received == |v.frags|
    && (v.info.Some? ==> forall k | k in v.frags :: k < v.info.value.num)
  }

  /** Nothing complete is left lying around between calls. */
  ghost predicate AtRest(v: View) {
    v.info.Some? ==> v.received != v.info.value.num
  }

  /** An info datagram announces more than every fragment number stored before it. */
  ghost predicate WellNumbered(v: View, e: Event) {
    e.Arrive? && e.msg.Info? && v.info.None? ==> forall k | k in v.frags :: k < e.msg.num
  }

  ghost predicate WellNumberedRun(v: View, es: seq<Event>)
    decreases |es|
  {
    es == [] || (WellNumbered(v, es[0]) && WellNumberedRun(ViewStep(v, es[0]).0, es[1..]))
  }

  /** The pigeonhole step: a tight counter equals the announced count exactly when fragments
      0 to n - 1 are all there. */
  lemma CompleteAgrees(v: View)
    requires Tight(v)
    ensures var (w, reply) := Complete(v);
      && (Abstract(w), reply) == SpecComplete(Abstract(v))
      && Tight(w) && AtRest(w) && !reply.Undefined?
  {
    if v.info.Some? {
      Pigeonhole(v.frags.Keys, v.info.value.num);
      assert |v.frags.Keys| == |v.frags|;
    }
  }

  /** On well-numbered traffic every step is the step of the specification, and the counter stays
      tight; in particular no null slot is ever read. */
  lemma StepRefines(v: View, e: Event)
    requires Tight(v) && AtRest(v) && WellNumbered(v, e)
    ensures var (w, reply) := ViewStep(v, e);
      && SpecStep(Abstract(v), e) == (Abstract(w), reply)
      && Tight(w) && AtRest(w) && !reply.Undefined?
  {
    match e
    case Arrive(Info(num, len), now) =>
      if v.info.None? {
        assert Below(v.frags, num) == v.frags;
        CompleteAgrees(View(Some(Announced(num, len)), v.frags, v.received, now));
      }
    case Arrive(Fragment(num, payload), now) =>
      if Fits(v, num) && num !in v.frags && payload.Some? {
        assert v.frags[num := payload.value].Keys == v.frags.Keys + {num};
        CompleteAgrees(View(v.info, v.frags[num := payload.value], v.received + 1, now));
      }
    case Expire(cutoff) =>
  }

  lemma {:induction false} RunRefinesView(v: View, es: seq<Event>)
    requires Tight(v) && AtRest(v) && WellNumberedRun(v, es)
    ensures var (w, replies) := ViewRun(v, es);
      && SpecRun(Abstract(v), es) == (Abstract(w), replies)
      && Tight(w) && AtRest(w) && (forall r | r in replies :: !r.Undefined?)
    decreases |es|
  {
    if es != [] {
      StepRefines(v, es[0]);
      RunRefinesView(ViewStep(v, es[0]).0, es[1..]);
    }
  }

  /** The counter-and-vector implementation refines the specification over whole well-numbered runs. */
  lemma RunRefines(entry: Option<Package>, es: seq<Event>)
    requires Wf(entry) && Tight(Of(entry)) && AtRest(Of(entry))
    requires WellNumberedRun(Of(entry), es)
    ensures var (last, replies) := Run(entry, es);
      && SpecRun(Abstract(Of(entry)), es) == (Abstract(Of(last)), replies)
      && Tight(Of(last)) && AtRest(Of(last))
      && (forall r | r in replies :: !r.Undefined?)
  {
    RunCorresponds(entry, es);
    RunRefinesView(Of(entry), es);
  }

  // ---------------------------------------------------------------- other traffic

  lemma BelowSize(frags: map<nat, bytes>, n: nat)
    ensures |Below(frags, n)| <= |frags|
    ensures |Below(frags, n)| == |frags| <==> forall k | k in frags :: k < n
  {
    SubsetSize(Below(frags, n).Keys, frags.Keys);
    assert |Below(frags, n).Keys| == |Below(frags, n)| && |frags.Keys| == |frags|;
    if forall k | k in frags :: k < n {
      assert Below(frags, n) == frags;
    }
  }

  /** Well-numbering is exactly what keeps the counter tight. */
  lemma TightIffWellNumbered(v: View, e: Event)
    requires Tight(v) && AtRest(v)
    ensures Tight(ViewStep(v, e).0) <==> WellNumbered(v, e)
  {
    if WellNumbered(v, e) {
      StepRefines(v, e);
    } else {
      var num := e.msg.num;
      BelowSize(v.frags, num);
      if Below(v.frags, num).Keys == Range(num) {
        RangeSize(num);
        assert |Below(v.frags, num).Keys| == |Below(v.frags, num)|;
      }
    }
  }

  ghost predicate AlwaysTight(v: View, es: seq<Event>)
    decreases |es|
  {
    Tight(v) && (es == [] || AlwaysTight(ViewStep(v, es[0]).0, es[1..]))
  }

  lemma {:induction false} AlwaysTightIffWellNumbered(v: View, es: seq<Event>)
    requires Tight(v) && AtRest(v)
    ensures AlwaysTight(v, es) <==> WellNumberedRun(v, es)
    decreases |es|
  {
    if es != [] {
      TightIffWellNumbered(v, es[0]);
      if WellNumbered(v, es[0]) {
        StepRefines(v, es[0]);
        AlwaysTightIffWellNumbered(ViewStep(v, es[0]).0, es[1..]);
      }
    }
  }

  /** An entry whose slot vector was cut below a fragment it had counted. */
  ghost predicate Lossy(v: View) {
    && v.info.Some?
    && |v.frags| < v.received
    && (forall k | k in v.frags :: k < v.info.value.num)
  }

  lemma CompleteLossy(v: View)
    requires Lossy(v)
    ensures Complete(v) == (v, if v.received == v.info.value.num then Undefined else Quiet(OK))
  {
    if v.frags.Keys == Range(v.info.value.num) {
      RangeSize(v.info.value.num);
      assert |v.frags.Keys| == |v.frags|;
    }
  }

  /** Such an entry is beyond repair: it stays as it is and delivers nothing any more, and it reads a
      null slot exactly when a fragment it still accepts is the last one the counter waits for. */
  lemma LossyStep(v: View, e: Event)
    requires Lossy(v) && e.Arrive?
    ensures Lossy(ViewStep(v, e).0) && !ViewStep(v, e).1.Deliver?
    ensures ViewStep(v, e).1.Undefined? <==> Accepts(v, e) && v.received + 1 == v.info.value.num
  {
    match e.msg
    case Info(num, len) =>
    case Fragment(num, payload) =>
      if Fits(v, num) && num !in v.frags && payload.Some? {
        assert v.frags[num := payload.value].Keys == v.frags.Keys + {num};
        CompleteLossy(View(v.info, v.frags[num := payload.value], v.received + 1, e.now));
      }
  }

  /** The event brings a fragment that will be stored. */
  predicate Accepts(v: View, e: Event) {
    e.Arrive? && e.msg.Fragment? && Fits(v, e.msg.num) && e.msg.num !in v.frags && e.msg.payload.Some?
  }

  lemma {:induction false} LossyNeverDelivers(v: View, es: seq<Event>)
    requires Lossy(v)
    requires forall e | e in es :: e.Arrive?
    ensures Lossy(ViewRun(v, es).0)
    ensures forall r | r in ViewRun(v, es).1 :: !r.Deliver?
    decreases |es|
  {
    if es != [] {
      LossyStep(v, es[0]);
      LossyNeverDelivers(ViewStep(v, es[0]).0, es[1..]);
    }
  }

  /** An info that is not well-numbered makes the entry lossy at once. */
  lemma ShrinkingLoses(v: View, num: uint32, len: uint32, now: int)
    requires Tight(v) && v.info.None?
    requires exists k :: k in v.frags && k >= num
    ensures Lossy(ViewStep(v, Arrive(Info(num, len), now)).0)
  {
    BelowSize(v.frags, num);
    CompleteLossy(View(Some(Announced(num, len)), Below(v.frags, num), v.received, now));
  }

  // ------------------------------------------------- when a null slot is read

  /** What every run keeps: the counter never undercounts, it is exact until the info is there, stored
      numbers are below the announced count, and nothing complete is left lying around. */
  ghost predicate Sane(v: View) {
    && |v.frags| <= v.received
    && (v.info.None? ==> v.received == |v.frags|)
    && (v.info.Some? ==> forall k | k in v.frags :: k < v.info.value.num)
    && (Tight(v) ==> AtRest(v))
  }

  /** What can be seen before the step: either an info arrives that announces as many fragments as
      were counted, one of which has too high a number; or a fragment is accepted that the counter
      takes for the last one, while the entry has lost one. */
  ghost predicate ReadsNull(v: View, e: Event) {
    || (&& e.Arrive? && e.msg.Info? && v.info.None?
        && v.received == e.msg.num && exists k :: k in v.frags && k >= e.msg.num)
    || (&& Accepts(v, e) && v.info.Some?
        && |v.frags| < v.received && v.received + 1 == v.info.value.num)
  }

  lemma InfoReadsNullIff(v: View, e: Event)
    requires Sane(v) && e.Arrive? && e.msg.Info? && v.info.None?
    ensures ViewStep(v, e).1.Undefined? <==> ReadsNull(v, e)
    ensures Sane(ViewStep(v, e).0)
  {
    var num := e.msg.num;
    if WellNumbered(v, e) {
      StepRefines(v, e);
    } else {
      BelowSize(v.frags, num);
      CompleteLossy(View(Some(Announced(num, e.msg.len)), Below(v.frags, num), v.received, e.now));
    }
  }

  lemma FragmentReadsNullIff(v: View, e: Event)
    requires Sane(v) && Accepts(v, e)
    ensures ViewStep(v, e).1.Undefined? <==> ReadsNull(v, e)
    ensures Sane(ViewStep(v, e).0)
  {
    if Tight(v) {
      StepRefines(v, e);
    } else {
      LossyStep(v, e);
    }
  }

  /** A step reads a null slot if and only if the condition holds, which is stated on the entry before
      the step; and what the condition relies on is kept by every step. */
  lemma ReadsNullIff(v: View, e: Event)
    requires Sane(v)
    ensures ViewStep(v, e).1.Undefined? <==> ReadsNull(v, e)
    ensures Sane(ViewStep(v, e).0)
  {
    if e.Arrive? && e.msg.Info? && v.info.None? {
      InfoReadsNullIff(v, e);
    } else if Accepts(v, e) {
      FragmentReadsNullIff(v, e);
    }
  }

  lemma {:induction false} ViewReadsNullIff(v: View, es: seq<Event>, j: nat)
    requires Sane(v) && j < |es|
    ensures ViewRun(v, es).1[j].Undefined? <==> ReadsNull(ViewRun(v, es[..j]).0, es[j])
    decreases |es|
  {
    ReadsNullIff(v, es[0]);
    if j > 0 {
      ViewReadsNullIff(ViewStep(v, es[0]).0, es[1..], j - 1);
      assert es[..j][1..] == es[1..][..j - 1];
    }
  }

  lemma {:induction false} ViewStaysSane(v: View, es: seq<Event>)
    requires Sane(v)
    ensures Sane(ViewRun(v, es).0)
    decreases |es|
  {
    if es != [] {
      ReadsNullIff(v, es[0]);
      ViewStaysSane(ViewStep(v, es[0]).0, es[1..]);
    }
  }

  /** Every entry of a receiver that started empty is sane, whatever arrived. */
  lemma RunStaysSane(es: seq<Event>)
    ensures Wf(Run(None, es).0) && Sane(Of(Run(None, es).0))
  {
    RunCorresponds(None, es);
    ViewStaysSane(EMPTY, es);
  }

  /** Over runs of the implementation, whatever arrives: reply `j` reads a null slot if and only if
      the condition holds of event `j` and the entry before it. */
  lemma RunReadsNullIff(entry: Option<Package>, es: seq<Event>, j: nat)
    requires Wf(entry) && Sane(Of(entry)) && j < |es|
    ensures Run(entry, es).1[j].Undefined? <==> ReadsNull(Of(Run(entry, es[..j]).0), es[j])
  {
    RunCorresponds(entry, es);
    RunCorresponds(entry, es[..j]);
    ViewReadsNullIff(Of(entry), es, j);
  }

  /** The smallest run in which this happens: fragment 1, then an info that announces one fragment. */
  lemma NullSlotRead(payload: bytes, len: uint32, t0: int, t1: int)
    ensures var es := [Arrive(Fragment(1, Some(payload)), t0), Arrive(Info(1, len), t1)];
      Run(None, es).1 == [Quiet(OK), Undefined]
  {
    var e0, e1 := Arrive(Fragment(1, Some(payload)), t0), Arrive(Info(1, len), t1);
    var v := View(None, map[1 := payload], 1, t0);
    RunCorresponds(None, [e0, e1]);
    assert ViewStep(EMPTY, e0) == (v, Quiet(OK));
    assert 1 in v.frags;
    ReadsNullIff(EMPTY, e0);
    ReadsNullIff(v, e1);
    assert [e0, e1][1..] == [e1] && [e1][1..] == [];
    assert ViewRun(v, [e1]).1 == [ViewStep(v, e1).1];
  }

  // ----------------------------------------------------------------- provenance

  /** Everything an entry holds was brought by one of these messages. */
  ghost predicate From(v: View, seen: set<Msg>) {
    && (v.info.Some? ==> Info(v.info.value.num, v.info.value.len) in seen)
    && (forall k: nat | k in v.frags :: k < U32_LIMIT && Fragment(k, Some(v.frags[k])) in seen)
  }

  /** A message is put together from an info that announces its number of fragments and its length,
      and from one fragment for every number below that. */
  ghost predicate Composed(message: bytes, seen: set<Msg>) {
    exists frags: map<nat, bytes>, n: uint32 :: ComposedOf(message, frags, n, seen)
  }

  ghost predicate ComposedOf(message: bytes, frags: map<nat, bytes>, n: uint32, seen: set<Msg>) {
    && frags.Keys == Range(n)
    && |message| < U32_LIMIT
    && Info(n, |message|) in seen
    && (forall k: nat | k < n :: Fragment(k, Some(frags[k])) in seen)
    && message == InOrder(frags, n)
  }

  function Brought(e: Event): set<Msg> {
    if e.Arrive? then {e.msg} else {}
  }

  lemma CompleteProvenance(v: View, seen: set<Msg>)
    requires From(v, seen)
    ensures From(Complete(v).0, seen)
    ensures var reply := Complete(v).1; reply.Deliver? ==> Composed(reply.message, seen)
  {
    var reply := Complete(v).1;
    if reply.Deliver? {
      assert ComposedOf(reply.message, v.frags, v.info.value.num, seen);
    }
  }

  lemma StepProvenance(v: View, e: Event, seen: set<Msg>)
    requires From(v, seen)
    ensures From(ViewStep(v, e).0, seen + Brought(e))
    ensures var reply := ViewStep(v, e).1; reply.Deliver? ==> Composed(reply.message, seen + Brought(e))
  {
    match e
    case Arrive(Info(num, len), now) =>
      CompleteProvenance(View(Some(Announced(num, len)), Below(v.frags, num), v.received, now), seen + Brought(e));
    case Arrive(Fragment(num, payload), now) =>
      if payload.Some? {
        CompleteProvenance(View(v.info, v.frags[num := payload.value], v.received + 1, now), seen + Brought(e));
      }
    case Expire(cutoff) =>
  }

  function BroughtBy(es: seq<Event>): set<Msg> {
    if es == [] then {} else Brought(es[0]) + BroughtBy(es[1..])
  }

  lemma {:induction false} ViewProvenance(v: View, es: seq<Event>, seen: set<Msg>, j: nat)
    requires From(v, seen) && j < |es|
    ensures var reply := ViewRun(v, es).1[j];
      reply.Deliver? ==> Composed(reply.message, seen + BroughtBy(es[..j + 1]))
    decreases |es|
  {
    StepProvenance(v, es[0], seen);
    var rest := es[1..];
    assert es[..j + 1][0] == es[0] && es[..j + 1][1..] == rest[..j];
    if j > 0 {
      ViewProvenance(ViewStep(v, es[0]).0, rest, seen + Brought(es[0]), j - 1);
      assert seen + Brought(es[0]) + BroughtBy(rest[..j]) == seen + BroughtBy(es[..j + 1]);
    } else {
      assert BroughtBy(rest[..0]) == {};
      assert seen + BroughtBy(es[..1]) == seen + Brought(es[0]);
    }
  }

  /** Whatever arrives for a key after its entry was last absent or empty, a delivered message is made
      of what arrived since, has exactly the announced length, and is shorter than 2^32 bytes. */
  lemma Provenance(entry: Option<Package>, es: seq<Event>, j: nat)
    requires Wf(entry) && Of(entry) == EMPTY && j < |es|
    ensures var reply := Run(entry, es).1[j];
      reply.Deliver? ==> Composed(reply.message, BroughtBy(es[..j + 1]))
  {
    RunCorresponds(entry, es);
    ViewProvenance(EMPTY, es, {}, j);
    assert {} + BroughtBy(es[..j + 1]) == BroughtBy(es[..j + 1]);
  }
}
