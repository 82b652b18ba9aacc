/** The receiver's entry seen from outside: the announced info, the stored fragments by number, the
    counter and the last access. An absent entry and an empty shell look the same, and trailing null
    slots are invisible. The correspondence holds for every run, whatever arrives. */
module View {
  import opened Basics
  import opened PackageStep

  datatype Announced = Announced(num: uint32, len: uint32)

  datatype View = View(info: Option<Announced>, frags: map<nat, bytes>, received: nat, last: int)

  const EMPTY: View := View(None, map[], 0, 0)

  /** The payloads that are there, by fragment number. */
  function Frags(slots: seq<Slot>): (r: map<nat, bytes>)
    ensures forall k | k in r :: k < |slots|
  {
    if slots == [] then map[]
    else
      var n := |slots| - 1;
      var front := Frags(slots[..n]);
      if slots[n].Some? then front[n := slots[n].value] else front
  }

  function Of(entry: Option<Package>): View {
    match entry
    case None => EMPTY
    case Some(p) =>
      View(if p.infoReceived then Option.Some(Announced(p.totalFragments, p.totalSize)) else Option.None,
           Frags(p.slots), p.received, p.lastAccess)
  }

  /** What every run keeps: the counter never undercounts the filled slots and cannot wrap, it is
      exact until the info arrives, and the info fixes the number of slots. */
  ghost predicate Wf(entry: Option<Package>) {
    entry.Some? ==>
      var p := entry.value;
      var filled := |Frags(p.slots)|;
      && filled <= p.received
      && p.received + (|p.slots| - filled) <= U32_MAX
      && (if p.infoReceived then |p.slots| == p.totalFragments else p.received == filled)
      && (!p.infoReceived && p.received == 0 ==> p.lastAccess == 0)
  }

  // -------------------------------------------------------------- the steps

  /** Fragments 0 to n - 1 in order. */
  function InOrder(frags: map<nat, bytes>, n: nat): bytes
    requires forall k: nat | k < n :: k in frags
  {
    if n == 0 then [] else InOrder(frags, n - 1) + frags[n - 1]
  }

  function Below(frags: map<nat, bytes>, n: nat): (r: map<nat, bytes>)
    ensures forall k :: k in r <==> k in frags && k < n
    ensures forall k | k in r :: r[k] == frags[k]
  {
    map k | k in frags && k < n :: frags[k]
  }

  function Complete(v: View): (View, Reply) {
    if v.info.None? || v.received != v.info.value.num then (v, Quiet(OK))
    else if v.frags.Keys != Range(v.info.value.num) then (v, Undefined)
    else
      var message := InOrder(v.frags, v.info.value.num);
      if |message| != v.info.value.len then (EMPTY, Quiet(MalformedReassembledMessage))
      else (EMPTY, Deliver(message))
  }

  /** Fragment numbers the receiver accepts: below the announced count, or, while that is unknown, any
      but the one whose successor is 0 in 32 bits. */
  predicate Fits(v: View, num: uint32) {
    match v.info
    case None => num != U32_MAX
    case Some(a) => num < a.num
  }

  function ViewStep(v: View, e: Event): (View, Reply) {
    match e
    case Arrive(Info(num, len), now) =>
      if v.info.Some? then (v, Quiet(DuplicateDatagram))
      else Complete(View(Some(Announced(num, len)), Below(v.frags, num), v.received, now))
    case Arrive(Fragment(num, payload), now) =>
      if !Fits(v, num) then (v, Quiet(MalformedDatagram))
      else if num in v.frags then (v, Quiet(DuplicateDatagram))
      else if payload.None? then (v, Quiet(MalformedDatagram))
      else Complete(View(v.info, v.frags[num := payload.value], v.received + 1, now))
    case Expire(cutoff) =>
      (if v.last < cutoff then EMPTY else v, Quiet(OK))
  }

  function ViewRun(v: View, es: seq<Event>): (r: (View, seq<Reply>))
    ensures |r.1| == |es|
    decreases |es|
  {
    if es == [] then (v, [])
    else
      var (next, reply) := ViewStep(v, es[0]);
      var (last, replies) := ViewRun(next, es[1..]);
      (last, [reply] + replies)
  }

  lemma ViewRunFirst(v: View, e: Event, es: seq<Event>)
    ensures ViewRun(v, [e] + es).1 == [ViewStep(v, e).1] + ViewRun(ViewStep(v, e).0, es).1
  {
    assert ([e] + es)[1..] == es;
  }

  // ------------------------------------------------------ slots and fragments

  lemma {:induction false} FragsAt(slots: seq<Slot>, k: nat)
    requires k < |slots|
    ensures k in Frags(slots) <==> slots[k].Some?
    ensures slots[k].Some? ==> Frags(slots)[k] == slots[k].value
  {
    if k < |slots| - 1 {
      FragsAt(slots[..|slots| - 1], k);
    }
  }

  lemma FragsSize(slots: seq<Slot>)
    ensures |Frags(slots)| <= |slots|
    ensures |Frags(slots)| == |slots| <==> AllFilled(slots)
    ensures AllFilled(slots) <==> Frags(slots).Keys == Range(|slots|)
  {
    var keys := Frags(slots).Keys;
    Pigeonhole(keys, |slots|);
    assert |keys| == |Frags(slots)|;
    forall k: nat | k < |slots|
      ensures k in keys <==> slots[k].Some?
    {
      FragsAt(slots, k);
    }
  }

  lemma {:induction false} FragsGrow(slots: seq<Slot>, n: nat)
    requires |slots| <= n
    ensures Frags(Resize(slots, n)) == Frags(slots)
    decreases n - |slots|
  {
    if |slots| == n {
      assert slots[..n] == slots;
    } else {
      assert (slots + [None])[..|slots|] == slots;
      FragsGrow(slots + [None], n);
    }
  }

  lemma {:induction false} FragsPrefix(slots: seq<Slot>, n: nat)
    requires n <= |slots|
    ensures Frags(slots[..n]) == Below(Frags(slots), n)
  {
    if n == |slots| {
      assert slots[..n] == slots;
    } else {
      FragsPrefix(slots[..|slots| - 1], n);
      assert slots[..|slots| - 1][..n] == slots[..n];
    }
  }

  lemma FragsCut(slots: seq<Slot>, n: nat)
    ensures Frags(Resize(slots, n)) == Below(Frags(slots), n)
    ensures |Below(Frags(slots), n)| <= |Frags(slots)|
    ensures if |slots| <= n then Below(Frags(slots), n) == Frags(slots)
      else n - |Below(Frags(slots), n)| <= |slots| - |Frags(slots)|
  {
    if |slots| <= n {
      FragsGrow(slots, n);
      assert Below(Frags(slots), n) == Frags(slots);
    } else {
      FragsPrefix(slots, n);
      var f, g := Frags(slots).Keys, Below(Frags(slots), n).Keys;
      SubsetSize(g, f);
      assert |g| == |Below(Frags(slots), n)| && |f| == |Frags(slots)|;
      // The fragments cut off were at most |slots| - n.
      CutSize(f - g, n, |slots|);
      assert f == g + (f - g);
    }
  }

  lemma {:induction false} CutSize(s: set<nat>, lo: nat, hi: nat)
    requires lo <= hi
    requires forall k | k in s :: lo <= k < hi
    ensures |s| <= hi - lo
    decreases hi - lo
  {
    if lo < hi {
      CutSize(s - {lo}, lo + 1, hi);
    } else {
      assert s == {};
    }
  }

  lemma {:induction false} FragsUpdate(slots: seq<Slot>, num: nat, x: bytes)
    requires num < |slots|
    ensures Frags(slots[num := Some(x)]) == Frags(slots)[num := x]
  {
    var n := |slots| - 1;
    if num == n {
      assert slots[num := Some(x)][..n] == slots[..n];
    } else {
      FragsUpdate(slots[..n], num, x);
      assert slots[num := Some(x)][..n] == slots[..n][num := Some(x)];
    }
  }

  lemma FragsFill(slots: seq<Slot>, num: nat, x: bytes)
    requires num < |slots| && slots[num].None?
    ensures Frags(slots[num := Some(x)]) == Frags(slots)[num := x]
    ensures |Frags(slots)[num := x]| == |Frags(slots)| + 1
    ensures |Frags(slots)| < |slots|
  {
    FragsUpdate(slots, num, x);
    FragsAt(slots, num);
    FragsSize(slots);
    assert Frags(slots)[num := x].Keys == Frags(slots).Keys + {num};
  }

  lemma {:induction false} InOrderIsConcat(slots: seq<Slot>, n: nat)
    requires AllFilled(slots) && n <= |slots|
    ensures forall k: nat | k < n :: k in Frags(slots)
    ensures InOrder(Frags(slots), n) == Concat(Payloads(slots)[..n])
  {
    if n > 0 {
      InOrderIsConcat(slots, n - 1);
      FragsAt(slots, n - 1);
      var parts := Payloads(slots);
      assert parts[..n] == parts[..n - 1] + [parts[n - 1]];
      ConcatAppend(parts[..n - 1], parts[n - 1]);
    }
  }

  // ------------------------------------------------------------ simulation

  lemma CompleteCorresponds(p: Package)
    requires Wf(Some(p))
    ensures Complete(Of(Some(p))) == (Of(CompletionCheck(p).0), CompletionCheck(p).1)
    ensures Wf(CompletionCheck(p).0)
  {
    if p.infoReceived && p.received == p.totalFragments {
      FragsSize(p.slots);
      if AllFilled(p.slots) {
        InOrderIsConcat(p.slots, |p.slots|);
        assert Payloads(p.slots)[..|p.slots|] == Payloads(p.slots);
      }
    }
  }

  lemma InfoCorresponds(entry: Option<Package>, num: uint32, len: uint32, now: int)
    requires Wf(entry)
    ensures var e := Arrive(Info(num, len), now);
      && ViewStep(Of(entry), e) == (Of(Step(entry, e).0), Step(entry, e).1)
      && Wf(Step(entry, e).0)
  {
    var p := Existing(entry);
    assert Of(Some(NEW_PACKAGE)) == EMPTY;
    if !p.infoReceived {
      var q := Package(true, num, len, p.received, now, Resize(p.slots, num));
      FragsCut(p.slots, num);
      FragsSize(p.slots);
      CompleteCorresponds(q);
    }
  }

  /** Room is made up to slot `num`, unless `num + 1` is 0 in 32 bits. */
  lemma WidenedLength(p: Package, num: uint32)
    requires !p.infoReceived && |p.slots| <= U32_MAX
    ensures |p.slots| <= |Widened(p, num)| <= U32_MAX
    ensures num < |Widened(p, num)| <==> num != U32_MAX
  {
  }

  lemma WidenUnannounced(p: Package, num: uint32)
    requires Wf(Some(p)) && !p.infoReceived
    ensures var q := p.(slots := Widened(p, num));
      && Wf(Some(q)) && Of(Some(q)) == Of(Some(p))
      && (num < |q.slots| <==> num != U32_MAX)
  {
    WidenedLength(p, num);
    FragsGrow(p.slots, |Widened(p, num)|);
  }

  /** Making room is invisible. */
  lemma WidenCorresponds(p: Package, num: uint32)
    requires Wf(Some(p))
    ensures var q := p.(slots := Widened(p, num));
      && Wf(Some(q)) && Of(Some(q)) == Of(Some(p))
      && (num < |q.slots| <==> Fits(Of(Some(p)), num))
  {
    if p.infoReceived {
      assert p.(slots := Widened(p, num)) == p;
    } else {
      WidenUnannounced(p, num);
    }
  }

  /** The entry with a payload stored in slot `num`. */
  function Filled(q: Package, num: uint32, x: bytes, now: int): Package
    requires num < |q.slots|
  {
    q.(slots := q.slots[num := Some(x)], received := ToU32(q.received + 1), lastAccess := now)
  }

  /** Storing a payload in an empty slot; the counter cannot wrap. */
  lemma FillCorresponds(q: Package, num: uint32, x: bytes, now: int)
    requires Wf(Some(q)) && num < |q.slots| && q.slots[num].None?
    ensures var r := Filled(q, num, x, now);
      && Wf(Some(r))
      && Of(Some(r)) == View(Of(Some(q)).info, Frags(q.slots)[num := x], q.received + 1, now)
  {
    FragsFill(q.slots, num, x);
  }

  lemma ViewStores(v: View, num: uint32, x: bytes, now: int)
    requires Fits(v, num) && num !in v.frags
    ensures ViewStep(v, Arrive(Fragment(num, Some(x)), now))
      == Complete(View(v.info, v.frags[num := x], v.received + 1, now))
  {
  }

  lemma StoreCorresponds(q: Package, num: uint32, x: bytes, now: int)
    requires Wf(Some(q)) && num < |q.slots| && q.slots[num].None?
    requires Fits(Of(Some(q)), num)
    ensures var (next, reply) := CompletionCheck(Filled(q, num, x, now));
      Wf(next) && ViewStep(Of(Some(q)), Arrive(Fragment(num, Some(x)), now)) == (Of(next), reply)
  {
    FragsAt(q.slots, num);
    ViewStores(Of(Some(q)), num, x, now);
    FillCorresponds(q, num, x, now);
    CompleteCorresponds(Filled(q, num, x, now));
  }

  lemma RejectCorresponds(p: Package, num: uint32, payload: Option<bytes>, now: int)
    requires Wf(Some(p))
    requires var slots := Widened(p, num); num >= |slots| || slots[num].Some? || payload.None?
    ensures var e := Arrive(Fragment(num, payload), now);
      && ViewStep(Of(Some(p)), e) == (Of(Some(p)), Step(Some(p), e).1)
      && Step(Some(p), e).0 == Some(p.(slots := Widened(p, num)))
  {
    WidenCorresponds(p, num);
    if num < |Widened(p, num)| {
      FragsAt(Widened(p, num), num);
    }
  }

  /** A fragment for an empty slot is stored, and the entry checked for completion. */
  lemma StepStores(p: Package, num: uint32, x: bytes, now: int)
    requires var slots := Widened(p, num); num < |slots| && slots[num].None?
    ensures var q := p.(slots := Widened(p, num));
      Step(Some(p), Arrive(Fragment(num, Some(x)), now))
        == CompletionCheck(Filled(q, num, x, now))
  {
  }

  lemma AcceptCorresponds(p: Package, num: uint32, x: bytes, now: int)
    requires Wf(Some(p))
    requires var slots := Widened(p, num); num < |slots| && slots[num].None?
    ensures var e := Arrive(Fragment(num, Some(x)), now);
      && ViewStep(Of(Some(p)), e) == (Of(Step(Some(p), e).0), Step(Some(p), e).1)
      && Wf(Step(Some(p), e).0)
  {
    WidenCorresponds(p, num);
    var q := p.(slots := Widened(p, num));
    StoreCorresponds(q, num, x, now);
    StepStores(p, num, x, now);
  }

  lemma PresentCorresponds(p: Package, num: uint32, payload: Option<bytes>, now: int)
    requires Wf(Some(p))
    ensures var e := Arrive(Fragment(num, payload), now);
      && ViewStep(Of(Some(p)), e) == (Of(Step(Some(p), e).0), Step(Some(p), e).1)
      && Wf(Step(Some(p), e).0)
  {
    WidenCorresponds(p, num);
    var slots := Widened(p, num);
    if num >= |slots| || slots[num].Some? || payload.None? {
      RejectCorresponds(p, num, payload, now);
    } else {
      AcceptCorresponds(p, num, payload.value, now);
    }
  }

  lemma FragmentCorresponds(entry: Option<Package>, num: uint32, payload: Option<bytes>, now: int)
    requires Wf(entry)
    ensures var e := Arrive(Fragment(num, payload), now);
      && ViewStep(Of(entry), e) == (Of(Step(entry, e).0), Step(entry, e).1)
      && Wf(Step(entry, e).0)
  {
    if entry.None? {
      assert Of(Some(NEW_PACKAGE)) == EMPTY;
      assert Frags([]) == map[];
    }
    PresentCorresponds(Existing(entry), num, payload, now);
  }

  /** Every step of the implementation is the step of the view, and keeps the invariant; no
      assumption on the traffic is needed. */
  lemma StepCorresponds(entry: Option<Package>, e: Event)
    requires Wf(entry)
    ensures ViewStep(Of(entry), e) == (Of(Step(entry, e).0), Step(entry, e).1)
    ensures Wf(Step(entry, e).0)
  {
    match e
    case Arrive(Info(num, len), now) => InfoCorresponds(entry, num, len, now);
    case Arrive(Fragment(num, payload), now) => FragmentCorresponds(entry, num, payload, now);
    case Expire(cutoff) =>
  }

  lemma {:induction false} RunCorresponds(entry: Option<Package>, es: seq<Event>)
    requires Wf(entry)
    ensures ViewRun(Of(entry), es) == (Of(Run(entry, es).0), Run(entry, es).1)
    ensures Wf(Run(entry, es).0)
    decreases |es|
  {
    if es != [] {
      StepCorresponds(entry, es[0]);
      RunCorresponds(Step(entry, es[0]).0, es[1..]);
    }
  }
}
