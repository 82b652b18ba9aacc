/** The receiving socket: an expiry sweep before every datagram, the check of magic and version, the
    dispatch to the reassembly, and the receive loop around it. */
module Socket {
  import opened Basics
  import opened Wire
  import opened Fragmentation
  import opened Format
  import opened ReassemblyV5
  import opened Interleaving
  import opened OneMessage
  import opened Delivery
  import opened Shipments
  import opened EndToEnd
  import P = PackageStep
  import V = View
  import R = RawMemory

  const COMMON_HEADER_SIZE: nat := 5
  const MAX_UDP_DATAGRAM: nat := 65535

  /** Five seconds in ticks of a nanosecond clock. */
  const DEFAULT_MAX_AGE: int := 5_000_000_000

  // ------------------------------------------------------------ magic bytes

  /** `strncmp(a, b, |a|) == 0`: compares up to the first NUL both have in the same place. */
  predicate StrnEqual(a: bytes, b: bytes)
    requires |a| == |b|
  {
    a == [] || (a[0] == b[0] && (a[0] == 0 || StrnEqual(a[1..], b[1..])))
  }

  /** The comparison accepts exactly the socket's own magic if and only if no NUL precedes its last
      byte. */
  lemma MagicCheckIsEquality(magic: bytes)
    requires |magic| == 4
    ensures (forall d: bytes | |d| == 4 :: StrnEqual(d, magic) <==> d == magic)
      <==> magic[0] != 0 && magic[1] != 0 && magic[2] != 0
  {
    forall d: bytes | |d| == 4
      ensures StrnEqual(d, magic) <==>
        d[0] == magic[0] && (d[0] == 0 ||
        (d[1] == magic[1] && (d[1] == 0 || (d[2] == magic[2] && (d[2] == 0 || d[3] == magic[3])))))
      ensures d == magic <==> d[0] == magic[0] && d[1] == magic[1] && d[2] == magic[2] && d[3] == magic[3]
    {
      FourSteps(d, magic);
    }
    // A magic with an early NUL also accepts one that differs in its last byte.
    var other := magic[..3] + [if magic[3] == 0 then 1 else 0];
    assert |other| == 4 && other[3] != magic[3];
  }

  lemma FourSteps(a: bytes, b: bytes)
    requires |a| == 4 == |b|
    ensures StrnEqual(a, b) <==>
      a[0] == b[0] && (a[0] == 0 || (a[1] == b[1] && (a[1] == 0 || (a[2] == b[2] && (a[2] == 0 || a[3] == b[3])))))
  {
    assert a[3..][1..] == [] && b[3..][1..] == [];
    assert a[2..][1..] == a[3..] && b[2..][1..] == b[3..];
    assert a[1..][1..] == a[2..] && b[1..][1..] == b[2..];
    assert StrnEqual(a[3..], b[3..]) <==> a[3] == b[3];
    assert StrnEqual(a[2..], b[2..]) <==> a[2] == b[2] && (a[2] == 0 || a[3] == b[3]);
  }

  lemma {:induction false} StrnEqualSelf(a: bytes)
    ensures StrnEqual(a, a)
  {
    if a != [] {
      StrnEqualSelf(a[1..]);
    }
  }

  // --------------------------------------------------------------- one datagram

  /** A datagram, and the two clock readings of its handling: at the sweep and at the access. */
  datatype Arrival = Arrival(sender: Endpoint, data: bytes, sweepAt: int, accessAt: int)

  /** The datagram carries the socket's magic and version 5. */
  predicate Admitted(magic: bytes, d: bytes)
    requires |magic| == 4
  {
    COMMON_HEADER_SIZE <= |d| && StrnEqual(d[..4], magic) && d[4] == 5
  }

  function Refusal(magic: bytes, d: bytes): P.ErrorCode
    requires |magic| == 4
  {
    if COMMON_HEADER_SIZE <= |d| && StrnEqual(d[..4], magic) then P.UnsupportedProtocolVersion else P.MalformedDatagram
  }

  function SocketStep(s: PackageMap, magic: bytes, maxAge: int, a: Arrival): (PackageMap, P.Reply)
    requires |magic| == 4
  {
    var swept := Sweep(s, a.sweepAt - maxAge);
    if Admitted(magic, a.data) then Handle(swept, a.sender, a.data, a.accessAt)
    else (swept, P.Quiet(Refusal(magic, a.data)))
  }

  function SocketRun(s: PackageMap, magic: bytes, maxAge: int, arrivals: seq<Arrival>): (r: (PackageMap, seq<P.Reply>))
    requires |magic| == 4
    ensures |r.1| == |arrivals|
    decreases |arrivals|
  {
    if arrivals == [] then (s, [])
    else
      var (next, reply) := SocketStep(s, magic, maxAge, arrivals[0]);
      var (last, replies) := SocketRun(next, magic, maxAge, arrivals[1..]);
      (last, [reply] + replies)
  }

  /** The two magics agree, up to and including the first NUL they have in the same place if there is one. */
  predicate SameUpToNul(a: bytes, b: bytes)
    requires |a| == |b|
  {
    a == b || exists n :: 0 <= n < |a| && a[..n] == b[..n] && a[n] == 0 == b[n]
  }

  lemma {:induction false} StrnEqualIff(a: bytes, b: bytes)
    requires |a| == |b|
    ensures StrnEqual(a, b) <==> SameUpToNul(a, b)
  {
    if a != [] && a[0] == b[0] {
      StrnEqualIff(a[1..], b[1..]);
      SameTail(a, b);
    }
  }

  lemma SameTail(a: bytes, b: bytes)
    requires |a| == |b| > 0 && a[0] == b[0]
    ensures SameUpToNul(a, b) <==> a[0] == 0 || SameUpToNul(a[1..], b[1..])
  {
    assert a == [a[0]] + a[1..] && b == [b[0]] + b[1..];
    if a[0] == 0 {
      assert a[..0] == b[..0];
    }
    if n :| 0 <= n < |a| && a[..n] == b[..n] && a[n] == 0 == b[n] && n > 0 {
      assert a[1..][..n - 1] == a[..n][1..] && b[1..][..n - 1] == b[..n][1..];
      assert a[1..][n - 1] == 0;
    }
    if n :| 0 <= n < |a| - 1 && a[1..][..n] == b[1..][..n] && a[1..][n] == 0 == b[1..][n] {
      assert a[..n + 1] == [a[0]] + a[1..][..n] && b[..n + 1] == [b[0]] + b[1..][..n];
      assert a[n + 1] == 0 == b[n + 1];
    }
  }

  /** What the socket answers to any datagram, and what it keeps. Whatever comes, the sweep is done. A
      datagram that is too short for magic and version, or has another magic, is malformed; another
      version is not supported; everything else is the reassembly's. */
  lemma SocketAnswer(s: PackageMap, magic: bytes, maxAge: int, a: Arrival)
    requires |magic| == 4
    ensures var d, swept := a.data, Sweep(s, a.sweepAt - maxAge);
      SocketStep(s, magic, maxAge, a) ==
        if |d| < 5 || !SameUpToNul(d[..4], magic) then (swept, P.Quiet(P.MalformedDatagram))
        else if d[4] != 5 then (swept, P.Quiet(P.UnsupportedProtocolVersion))
        else Handle(swept, a.sender, d, a.accessAt)
  {
    if |a.data| >= 5 {
      StrnEqualIff(a.data[..4], magic);
    }
  }

  /** For a magic without an early NUL, only its own datagrams get through. */
  lemma ForeignDatagramsRefused(s: PackageMap, magic: bytes, maxAge: int, a: Arrival)
    requires |magic| == 4 && magic[0] != 0 && magic[1] != 0 && magic[2] != 0
    ensures |a.data| < 5 || a.data[..4] != magic ==>
      SocketStep(s, magic, maxAge, a) == (Sweep(s, a.sweepAt - maxAge), P.Quiet(P.MalformedDatagram))
    ensures |a.data| >= 5 && a.data[..4] == magic && a.data[4] != 5 ==>
      SocketStep(s, magic, maxAge, a) == (Sweep(s, a.sweepAt - maxAge), P.Quiet(P.UnsupportedProtocolVersion))
    ensures |a.data| >= 5 && a.data[..4] == magic && a.data[4] == 5 ==>
      SocketStep(s, magic, maxAge, a) == Handle(Sweep(s, a.sweepAt - maxAge), a.sender, a.data, a.accessAt)
  {
    SocketAnswer(s, magic, maxAge, a);
    if |a.data| >= 5 {
      StrnEqualIff(a.data[..4], magic);
      MagicCheckIsEquality(magic);
    }
  }

  /** The entry of a key the datagram is not for is erased if it was last accessed before the cutoff, and
      otherwise stays as it is. */
  lemma OtherEntries(s: PackageMap, magic: bytes, maxAge: int, a: Arrival, k: Key)
    requires |magic| == 4 && !Concerns(magic, a, k)
    ensures Lookup(SocketStep(s, magic, maxAge, a).0, k)
      == if k in s && s[k].lastAccess >= a.sweepAt - maxAge then Some(s[k]) else None
  {
    if Admitted(magic, a.data) {
      OtherKeysUntouched(Sweep(s, a.sweepAt - maxAge), Datagram(a.sender, a.data, a.accessAt), k);
    }
  }

  lemma WholeAdmitted(magic: bytes, d: bytes, padding: bytes)
    requires |magic| == 4 && |d| >= 24 && d[..4] == magic && d[4] == 5
    ensures Admitted(magic, d + padding)
  {
    assert (d + padding)[..4] == d[..4] && (d + padding)[4] == d[4];
    StrnEqualSelf(magic);
  }

  /** The round trip of a message that fits into one datagram: a socket with the same magic delivers it,
      padded or not, and keeps what the sweep leaves. */
  lemma SmallRoundTrip(s: PackageMap, magic: bytes, id: uint32, flat: bytes, maxSize: nat, padding: bytes,
                       maxAge: int, sender: Endpoint, sweepAt: int, accessAt: int)
    requires |magic| == 4 && 24 < maxSize && |flat| + 24 <= maxSize
    requires 24 + |flat| + |padding| < U32_LIMIT
    ensures |Datagrams(magic, id, flat, maxSize)| == 1
    ensures var d := Datagrams(magic, id, flat, maxSize)[0];
      SocketStep(s, magic, maxAge, Arrival(sender, d + padding, sweepAt, accessAt))
        == (Sweep(s, sweepAt - maxAge), P.Deliver(flat))
  {
    var d := Datagrams(magic, id, flat, maxSize)[0];
    WholeOnTheWire(magic, id, flat, maxSize);
    WholeAdmitted(magic, d, padding);
    WholeRoundTrip(Sweep(s, sweepAt - maxAge), sender, magic, flat, padding, accessAt);
  }

  // --------------------------------------------------------------------- expiry

  /** After each datagram every entry was accessed no longer than `maxAge` before this call, or is an
      empty shell. */
  lemma NothingOldRemains(s: PackageMap, magic: bytes, maxAge: int, a: Arrival, k: Key)
    requires |magic| == 4
    requires a.sweepAt <= a.accessAt && 0 <= maxAge
    requires k in SocketStep(s, magic, maxAge, a).0
    ensures var p := SocketStep(s, magic, maxAge, a).0[k];
      p.lastAccess >= a.sweepAt - maxAge || V.Of(Some(p)) == V.EMPTY
  {
    var swept := Sweep(s, a.sweepAt - maxAge);
    if Admitted(magic, a.data) {
      var action := Datagram(a.sender, a.data, a.accessAt);
      if Toward(action, k).Some? {
        StepIsLocal(swept, action, k);
        RecentOrShell(Lookup(swept, k), Toward(action, k).value, a.sweepAt - maxAge);
      } else {
        OtherKeysUntouched(swept, action, k);
        assert Lookup(swept, k).Some?;
      }
    }
  }

  lemma RecentOrShell(entry: Option<P.Package>, e: P.Event, cutoff: int)
    requires e.Arrive? && cutoff <= e.now
    requires entry.Some? ==> entry.value.lastAccess >= cutoff
    ensures var next := P.Step(entry, e).0;
      next.Some? ==> next.value.lastAccess >= cutoff || V.Of(next) == V.EMPTY
  {
    match e.msg
    case Info(num, len) =>
    case Fragment(num, payload) =>
      if entry.None? {
        V.FragsGrow([], |P.Widened(P.NEW_PACKAGE, num)|);
        assert V.Frags([]) == map[];
      }
  }

  // --------------------------------------------------- timed runs as plain runs

  /** The reassembly calls a datagram causes. */
  function Calls(magic: bytes, maxAge: int, a: Arrival): seq<Action>
    requires |magic| == 4
  {
    [Purge(a.sweepAt - maxAge)] + if Admitted(magic, a.data) then [Datagram(a.sender, a.data, a.accessAt)] else []
  }

  function AllCalls(magic: bytes, maxAge: int, arrivals: seq<Arrival>): seq<Action>
    requires |magic| == 4
  {
    if arrivals == [] then [] else Calls(magic, maxAge, arrivals[0]) + AllCalls(magic, maxAge, arrivals[1..])
  }

  /** The replies of the socket among the replies of the reassembly: refused datagrams are answered
      by the socket itself, and sweeps are not answered. */
  function FromReassembly(magic: bytes, arrivals: seq<Arrival>, replies: seq<P.Reply>): (r: seq<P.Reply>)
    requires |magic| == 4 && |arrivals| == |replies|
  {
    if arrivals == [] then []
    else
      var answered := if Admitted(magic, arrivals[0].data) then [replies[0]] else [];
      [P.Quiet(P.OK)] + answered + FromReassembly(magic, arrivals[1..], replies[1..])
  }

  lemma AdmittedArrival(s: PackageMap, magic: bytes, maxAge: int, a: Arrival, more: seq<Action>)
    requires |magic| == 4 && Admitted(magic, a.data)
    ensures var (next, reply) := SocketStep(s, magic, maxAge, a);
      RunAll(s, Calls(magic, maxAge, a) + more)
        == (RunAll(next, more).0, [P.Quiet(P.OK)] + [reply] + RunAll(next, more).1)
  {
    var purge, d := Purge(a.sweepAt - maxAge), Datagram(a.sender, a.data, a.accessAt);
    RunAllFirst(s, purge, [d] + more);
    RunAllFirst(Act(s, purge).0, d, more);
    assert Calls(magic, maxAge, a) + more == [purge] + ([d] + more);
    var (next, reply) := SocketStep(s, magic, maxAge, a);
    assert [P.Quiet(P.OK)] + ([reply] + RunAll(next, more).1) == [P.Quiet(P.OK)] + [reply] + RunAll(next, more).1;
  }

  lemma RefusedArrival(s: PackageMap, magic: bytes, maxAge: int, a: Arrival, more: seq<Action>)
    requires |magic| == 4 && !Admitted(magic, a.data)
    ensures var next := SocketStep(s, magic, maxAge, a).0;
      RunAll(s, Calls(magic, maxAge, a) + more) == (RunAll(next, more).0, [P.Quiet(P.OK)] + [] + RunAll(next, more).1)
  {
    var purge := Purge(a.sweepAt - maxAge);
    RunAllFirst(s, purge, more);
    assert Calls(magic, maxAge, a) + more == [purge] + more;
    assert [P.Quiet(P.OK)] + [] == [P.Quiet(P.OK)];
  }

  /** A timed run of the socket is a run of the reassembly on the calls it makes. */
  lemma {:induction false} SocketRunIsRun(s: PackageMap, magic: bytes, maxAge: int, arrivals: seq<Arrival>)
    requires |magic| == 4
    ensures var (last, replies) := SocketRun(s, magic, maxAge, arrivals);
      RunAll(s, AllCalls(magic, maxAge, arrivals)) == (last, FromReassembly(magic, arrivals, replies))
    decreases |arrivals|
  {
    if arrivals != [] {
      var next := SocketStep(s, magic, maxAge, arrivals[0]).0;
      var more := AllCalls(magic, maxAge, arrivals[1..]);
      SocketRunIsRun(next, magic, maxAge, arrivals[1..]);
      if Admitted(magic, arrivals[0].data) {
        AdmittedArrival(s, magic, maxAge, arrivals[0], more);
      } else {
        RefusedArrival(s, magic, maxAge, arrivals[0], more);
      }
      assert SocketRun(s, magic, maxAge, arrivals).1[1..] == SocketRun(next, magic, maxAge, arrivals[1..]).1;
    }
  }

  // ---------------------------------------------------------- timely delivery

  /** The clock does not run backwards. */
  ghost predicate Monotone(arrivals: seq<Arrival>) {
    && (forall i | 0 <= i < |arrivals| :: arrivals[i].sweepAt <= arrivals[i].accessAt)
    && (forall i | 0 <= i < |arrivals| - 1 :: arrivals[i].accessAt <= arrivals[i + 1].sweepAt)
  }

  predicate Concerns(magic: bytes, a: Arrival, k: Key)
    requires |magic| == 4
  {
    Admitted(magic, a.data) && Toward(Datagram(a.sender, a.data, a.accessAt), k).Some?
  }

  /** Consecutive datagrams for `k` are handled at most `maxAge` apart; `since` is the time of the last
      one before these arrivals. */
  ghost predicate Prompt(magic: bytes, maxAge: int, k: Key, since: Option<int>, arrivals: seq<Arrival>)
    requires |magic| == 4
    decreases |arrivals|
  {
    arrivals == [] ||
    if Concerns(magic, arrivals[0], k) then
      && (since.Some? ==> arrivals[0].sweepAt - since.value <= maxAge)
      && Prompt(magic, maxAge, k, Some(arrivals[0].accessAt), arrivals[1..])
    else Prompt(magic, maxAge, k, since, arrivals[1..])
  }

  /** The first datagram as `k` sees it: a sweep, and an arrival if it concerns `k`. */
  lemma ProjectArrival(magic: bytes, maxAge: int, k: Key, arrivals: seq<Arrival>)
    requires |magic| == 4 && arrivals != []
    ensures var a := arrivals[0];
      Project(AllCalls(magic, maxAge, arrivals), k) == [P.Expire(a.sweepAt - maxAge)]
        + (if Concerns(magic, a, k) then [Toward(Datagram(a.sender, a.data, a.accessAt), k).value] else [])
        + Project(AllCalls(magic, maxAge, arrivals[1..]), k)
  {
    var a := arrivals[0];
    var more := AllCalls(magic, maxAge, arrivals[1..]);
    var calls := AllCalls(magic, maxAge, arrivals);
    assert calls[0] == Purge(a.sweepAt - maxAge);
    if Admitted(magic, a.data) {
      assert calls[1..] == [Datagram(a.sender, a.data, a.accessAt)] + more;
      assert calls[1..][1..] == more;
    } else {
      assert calls[1..] == more;
    }
  }

  lemma MoreArrivals(magic: bytes, maxAge: int, k: Key, arrivals: seq<Arrival>)
    requires |magic| == 4 && arrivals != []
    ensures HasArrival(Project(AllCalls(magic, maxAge, arrivals), k)) <==>
      Concerns(magic, arrivals[0], k) || HasArrival(Project(AllCalls(magic, maxAge, arrivals[1..]), k))
  {
    var a := arrivals[0];
    var es, rest := Project(AllCalls(magic, maxAge, arrivals), k), Project(AllCalls(magic, maxAge, arrivals[1..]), k);
    ProjectArrival(magic, maxAge, k, arrivals);
    assert forall e :: e in es <==> e in es[..|es| - |rest|] || e in rest;
    if Concerns(magic, a, k) {
      assert es[1].Arrive?;
    }
  }

  /** While more datagrams for `k` are to come promptly, no sweep so far was late. */
  lemma {:induction false} SweepsAreEarly(magic: bytes, maxAge: int, k: Key, since: int, arrivals: seq<Arrival>)
    requires |magic| == 4 && Monotone(arrivals) && arrivals != []
    requires Prompt(magic, maxAge, k, Some(since), arrivals)
    requires HasArrival(Project(AllCalls(magic, maxAge, arrivals), k))
    ensures arrivals[0].sweepAt - maxAge <= since
    decreases |arrivals|
  {
    if !Concerns(magic, arrivals[0], k) {
      MoreArrivals(magic, maxAge, k, arrivals);
      if arrivals[1..] != [] {
        SweepsAreEarly(magic, maxAge, k, since, arrivals[1..]);
      }
    }
  }

  /** The events of the first datagram, and what is timely about them. */
  lemma TimelyArrival(magic: bytes, maxAge: int, k: Key, pending: bool, since: int, arrivals: seq<Arrival>)
    requires |magic| == 4 && arrivals != []
    ensures var a := arrivals[0];
      var es, rest := Project(AllCalls(magic, maxAge, arrivals), k), Project(AllCalls(magic, maxAge, arrivals[1..]), k);
      Timely(pending, since, es) <==>
        && (pending && HasArrival(es) ==> a.sweepAt - maxAge <= since)
        && if Concerns(magic, a, k) then Timely(true, a.accessAt, rest) else Timely(pending, since, rest)
  {
    var es, rest := Project(AllCalls(magic, maxAge, arrivals), k), Project(AllCalls(magic, maxAge, arrivals[1..]), k);
    ProjectArrival(magic, maxAge, k, arrivals);
    NoIndices(es);
    NoIndices(es[1..]);
    if Concerns(magic, arrivals[0], k) {
      assert es[1..][1..] == rest;
    } else {
      assert es[1..] == rest;
    }
  }

  /** No sweep overtakes the datagrams of a key if and only if they are handled promptly. */
  lemma {:induction false} PromptIffTimely(
    magic: bytes, maxAge: int, k: Key, since: Option<int>, arrivals: seq<Arrival>)
    requires |magic| == 4 && Monotone(arrivals)
    ensures Prompt(magic, maxAge, k, since, arrivals)
      <==> Timely(since.Some?, if since.Some? then since.value else 0, Project(AllCalls(magic, maxAge, arrivals), k))
    decreases |arrivals|
  {
    if arrivals != [] {
      var a := arrivals[0];
      TimelyArrival(magic, maxAge, k, since.Some?, if since.Some? then since.value else 0, arrivals);
      MoreArrivals(magic, maxAge, k, arrivals);
      var es := Project(AllCalls(magic, maxAge, arrivals), k);
      if since.Some? && Prompt(magic, maxAge, k, since, arrivals) && HasArrival(es) {
        SweepsAreEarly(magic, maxAge, k, since.value, arrivals);
      }
      PromptIffTimely(magic, maxAge, k, if Concerns(magic, a, k) then Some(a.accessAt) else since, arrivals[1..]);
    }
  }

  /** The timed round trip: a message whose datagrams arrive once each, in any order, among any other
      traffic, is delivered if and only if each is handled at most `maxAge` after the one before it; and
      then at its last one. */
  lemma TimedRoundTrip(sh: Shipment, s: PackageMap, maxAge: int, arrivals: seq<Arrival>, order: seq<nat>)
    requires sh.Fragmented() && sh.InRange()
    requires Blank(Lookup(s, sh.FiledUnder()))
    requires Monotone(arrivals)
    requires Transmission(AllCalls(sh.magic, maxAge, arrivals), sh.FiledUnder(), sh.Sends(), order)
    requires Permutation(order, |sh.Sends()|)
    ensures var (last, replies) := SocketRun(s, sh.magic, maxAge, arrivals);
      var calls := AllCalls(sh.magic, maxAge, arrivals);
      var prompt := Prompt(sh.magic, maxAge, sh.FiledUnder(), None, arrivals);
      && |FromReassembly(sh.magic, arrivals, replies)| == |calls|
      && var seen := RepliesFor(calls, FromReassembly(sh.magic, arrivals, replies), sh.FiledUnder());
      && (P.Deliver(sh.flat) in seen <==> prompt)
      && (prompt ==> seen == AtTheLast(sh.flat, Project(calls, sh.FiledUnder())))
      && (prompt ==> Lookup(last, sh.FiledUnder()) == None)
  {
    var calls := AllCalls(sh.magic, maxAge, arrivals);
    PromptIffTimely(sh.magic, maxAge, sh.FiledUnder(), None, arrivals);
    SocketRunIsRun(s, sh.magic, maxAge, arrivals);
    RoundTripIffTimely(sh, s, calls, order);
    if Timely(false, 0, Project(calls, sh.FiledUnder())) {
      RoundTrip(sh, s, calls, order);
    }
  }

  /** The sender's own datagrams pass the check of a socket with the same magic. */
  lemma OwnDatagramsAdmitted(sh: Shipment, i: nat, d: bytes)
    requires sh.Fragmented() && i < |sh.Sends()| && sh.Sends()[i] <= d
    ensures Admitted(sh.magic, d)
  {
    SentDatagram(sh, i);
    StrnEqualSelf(sh.magic);
    assert sh.Sends()[i][..4] == sh.magic && sh.Sends()[i][4] == 5;
    assert d[..4] == sh.magic;
  }

  // ------------------------------------------------------------- the receive loop

  /** What the network stack hands to the receive loop. */
  datatype Incoming = Received(arrival: Arrival) | Failed(error: int) | ShutDown

  /** How a call of the receive loop ends: with a message, with an error of the network stack, because
      the socket was shut down, or not at all, when it waits for more. */
  datatype Outcome =
    | Message(sender: Endpoint, message: bytes)
    | Error(error: int)
    | Closed
    | Undefined
    | Waiting

  /** The datagrams among what came in. */
  function ArrivalsOf(items: seq<Incoming>): seq<Arrival> {
    if items == [] then []
    else
      var n := |items| - 1;
      ArrivalsOf(items[..n]) + if items[n].Received? then [items[n].arrival] else []
  }

  lemma {:induction false} SocketRunAppend(s: PackageMap, magic: bytes, maxAge: int, arrivals: seq<Arrival>, a: Arrival)
    requires |magic| == 4
    ensures var (next, replies) := SocketRun(s, magic, maxAge, arrivals);
      var (last, reply) := SocketStep(next, magic, maxAge, a);
      SocketRun(s, magic, maxAge, arrivals + [a]) == (last, replies + [reply])
    decreases |arrivals|
  {
    if arrivals == [] {
      assert arrivals + [a] == [a] && [a][1..] == [];
      var r := SocketStep(s, magic, maxAge, a).1;
      assert [] + [r] == [r] + [] == [r];
    } else {
      assert (arrivals + [a])[1..] == arrivals[1..] + [a];
      var (first, reply) := SocketStep(s, magic, maxAge, arrivals[0]);
      SocketRunAppend(first, magic, maxAge, arrivals[1..], a);
      var (next, replies) := SocketRun(first, magic, maxAge, arrivals[1..]);
      var r := SocketStep(next, magic, maxAge, a).1;
      assert [reply] + (replies + [r]) == [reply] + replies + [r];
    }
  }

  lemma OneMore(items: seq<Incoming>, j: nat)
    requires j < |items|
    ensures ArrivalsOf(items[..j + 1])
      == if items[j].Received? then ArrivalsOf(items[..j]) + [items[j].arrival] else ArrivalsOf(items[..j])
  {
    assert items[..j + 1][..j] == items[..j];
    assert ArrivalsOf(items[..j]) + [] == ArrivalsOf(items[..j]);
  }

  /** What came in were datagrams, and none was answered with a message. */
  ghost predicate AllQuiet(s: PackageMap, magic: bytes, maxAge: int, items: seq<Incoming>)
    requires |magic| == 4
  {
    && (forall i | i in items :: i.Received?)
    && (forall r | r in SocketRun(s, magic, maxAge, ArrivalsOf(items)).1 :: r.Quiet?)
  }

  /** The answer to the last item, a datagram, in the run over all of them. */
  ghost function LastReply(s: PackageMap, magic: bytes, maxAge: int, items: seq<Incoming>): P.Reply
    requires |magic| == 4 && items != [] && items[|items| - 1].Received?
  {
    var replies := SocketRun(s, magic, maxAge, ArrivalsOf(items)).1;
    replies[|replies| - 1]
  }

  lemma OneMoreDatagram(s: PackageMap, magic: bytes, maxAge: int, items: seq<Incoming>, j: nat)
    requires |magic| == 4 && j < |items| && items[j].Received?
    ensures var (next, replies) := SocketRun(s, magic, maxAge, ArrivalsOf(items[..j]));
      var (last, reply) := SocketStep(next, magic, maxAge, items[j].arrival);
      && SocketRun(s, magic, maxAge, ArrivalsOf(items[..j + 1])) == (last, replies + [reply])
      && LastReply(s, magic, maxAge, items[..j + 1]) == reply
  {
    OneMore(items, j);
    SocketRunAppend(s, magic, maxAge, ArrivalsOf(items[..j]), items[j].arrival);
  }

  lemma StillQuiet(s: PackageMap, magic: bytes, maxAge: int, items: seq<Incoming>, j: nat)
    requires |magic| == 4 && j < |items| && items[j].Received?
    requires AllQuiet(s, magic, maxAge, items[..j]) && LastReply(s, magic, maxAge, items[..j + 1]).Quiet?
    ensures AllQuiet(s, magic, maxAge, items[..j + 1])
  {
    OneMoreDatagram(s, magic, maxAge, items, j);
    assert items[..j + 1] == items[..j] + [items[j]];
  }

  lemma QuietLast(s: PackageMap, magic: bytes, maxAge: int, items: seq<Incoming>)
    requires |magic| == 4 && items != []
    ensures AllQuiet(s, magic, maxAge, items) ==>
      items[|items| - 1].Received? && LastReply(s, magic, maxAge, items).Quiet?
  {
    var replies := SocketRun(s, magic, maxAge, ArrivalsOf(items)).1;
    assert items[|items| - 1] in items;
    assert replies != [] ==> replies[|replies| - 1] in replies;
  }

  class Socket {
    const reassembly: Reassembly
    const magic: bytes
    var maxAge: int

    ghost predicate Valid() {
      |magic| == 4
    }

    constructor (magic: bytes)
      requires |magic| == 4
      ensures Valid() && this.magic == magic && maxAge == 5_000_000_000
      ensures fresh(reassembly) && reassembly.packages == map[]
    {
      this.magic := magic;
      reassembly := new Reassembly();
      maxAge := DEFAULT_MAX_AGE;
    }

    /** One datagram; the sweep happens even when the datagram is refused. */
    method HandleDatagram(buffer: R.RawMemory, sender: Endpoint, sweepAt: int, accessAt: int, recycled: R.RawMemory)
      returns (reply: P.Reply)
      requires Valid()
      requires buffer.Valid() && recycled.Valid()
      requires buffer != recycled && buffer.data != recycled.data
      modifies reassembly, recycled, recycled.data
      ensures recycled.Valid()
      ensures (reassembly.packages, reply) == SocketStep(old(reassembly.packages), magic, maxAge,
        Arrival(sender, old(buffer.Contents()), sweepAt, accessAt))
    {
      reassembly.RemoveOldPackages(sweepAt - maxAge);

      var d := buffer.Contents();
      if |d| < COMMON_HEADER_SIZE {
        return P.Quiet(P.MalformedDatagram);
      }
      if !StrnEqual(d[..4], magic) {
        return P.Quiet(P.MalformedDatagram);
      }
      if d[4] == 5 {
        reply := reassembly.HandleDatagram(buffer, sender, accessAt, recycled);
      } else {
        reply := P.Quiet(P.UnsupportedProtocolVersion);
      }
    }

    /** One datagram, received into a buffer of the pool. */
    method HandleArrival(a: Arrival) returns (reply: P.Reply)
      requires Valid() && |a.data| <= MAX_UDP_DATAGRAM
      modifies reassembly
      ensures (reassembly.packages, reply) == SocketStep(old(reassembly.packages), magic, maxAge, a)
    {
      var buffer := ReceiveInto(a.data);
      var recycled := new R.RawMemory();
      reply := HandleDatagram(buffer, a.sender, a.sweepAt, a.accessAt, recycled);
    }

    /** One item: an error or the shutdown ends the call, and so does a datagram that completes a message. */
    method ReceiveOne(item: Incoming) returns (outcome: Outcome)
      requires Valid() && (item.Received? ==> |item.arrival.data| <= 65535)
      modifies reassembly
      ensures !item.Received? ==> reassembly.packages == old(reassembly.packages)
      ensures item.Failed? ==> outcome == Error(item.error)
      ensures item.ShutDown? ==> outcome == Closed
      ensures item.Received? ==>
        var (next, reply) := SocketStep(old(reassembly.packages), magic, maxAge, item.arrival);
        && reassembly.packages == next
        && (reply.Quiet? ==> outcome == Waiting)
        && (reply.Undefined? ==> outcome == Undefined)
        && (reply.Deliver? ==> outcome == Message(item.arrival.sender, reply.message))
    {
      match item
      case Failed(error) =>
        return Error(error);
      case ShutDown =>
        return Closed;
      case Received(a) =>
        var reply := HandleArrival(a);
        if reply.Deliver? {
          return Message(a.sender, reply.message);
        }
        return if reply.Undefined? then Undefined else Waiting;
    }

    /** Receives datagrams until one of them completes a message or the network stack gives up. The
        reassembly is left as the run over the datagrams received leaves it. */
    method ReceiveFrom(items: seq<Incoming>) returns (outcome: Outcome, used: nat)
      requires Valid()
      requires forall i | i in items && i.Received? :: |i.arrival.data| <= 65535
      modifies reassembly
      ensures used <= |items|
      ensures reassembly.packages == SocketRun(old(reassembly.packages), magic, maxAge, ArrivalsOf(items[..used])).0
      ensures outcome == Waiting <==> AllQuiet(old(reassembly.packages), magic, maxAge, items[..used])
      ensures outcome == Waiting ==> used == |items|
      ensures outcome != Waiting ==> used > 0 && AllQuiet(old(reassembly.packages), magic, maxAge, items[..used - 1])
      ensures forall sender, message :: outcome == Message(sender, message) <==>
        used > 0 && items[used - 1].Received? && items[used - 1].arrival.sender == sender
        && LastReply(old(reassembly.packages), magic, maxAge, items[..used]) == P.Deliver(message)
      ensures forall error :: outcome == Error(error) <==> used > 0 && items[used - 1] == Failed(error)
      ensures outcome == Closed <==> used > 0 && items[used - 1] == ShutDown
      ensures outcome == Undefined <==>
        used > 0 && items[used - 1].Received?
        && LastReply(old(reassembly.packages), magic, maxAge, items[..used]) == P.Undefined
    {
      used, outcome := 0, Waiting;
      ghost var before := reassembly.packages;
      while used < |items|
        invariant used <= |items| && outcome == Waiting
        invariant reassembly.packages == SocketRun(before, magic, maxAge, ArrivalsOf(items[..used])).0
        invariant AllQuiet(before, magic, maxAge, items[..used])
      {
        assert items[used] in items;
        OneMore(items, used);
        if items[used].Received? {
          OneMoreDatagram(before, magic, maxAge, items, used);
        }
        outcome := ReceiveOne(items[used]);
        used := used + 1;
        QuietLast(before, magic, maxAge, items[..used]);
        if outcome != Waiting {
          return;
        }
        StillQuiet(before, magic, maxAge, items, used - 1);
      }
      if used > 0 {
        QuietLast(before, magic, maxAge, items[..used]);
      }
    }
  }

  /** A pooled buffer of maximal size, filled by the network stack and cut to what was received. */
  method ReceiveInto(d: bytes) returns (buffer: R.RawMemory)
    requires |d| <= MAX_UDP_DATAGRAM
    ensures fresh(buffer) && fresh(buffer.data) && buffer.Valid() && buffer.Contents() == d
  {
    buffer := new R.RawMemory();
    buffer.Resize(MAX_UDP_DATAGRAM);
    buffer.CopyIn(0, d);
    buffer.Resize(|d|);
  }
}
