/** Sending a datagram list: the synchronous loop and the chain of asynchronous completions. */
module Sending {
  import opened Basics

  /** The error of one send, if any. */
  type Verdict = Option<int>

  /** The network side of a socket: what it was asked to send, in order, and what it will answer to
      each request from now on. */
  class Network {
    var attempted: seq<bytes>
    const verdicts: seq<Verdict>

    constructor (verdicts: seq<Verdict>)
      ensures this.verdicts == verdicts && attempted == []
    {
      this.verdicts := verdicts;
      attempted := [];
    }

    /** Verdicts for `n` more requests. */
    ghost predicate Ready(n: nat)
      reads this
    {
      |attempted| + n <= |verdicts|
    }

    /** What the next requests will be answered. */
    ghost function Upcoming(): seq<Verdict>
      requires Ready(0)
      reads this
    {
      verdicts[|attempted|..]
    }

    method SendTo(d: bytes) returns (sent: nat, ec: Verdict)
      requires Ready(1)
      modifies this
      ensures attempted == old(attempted) + [d]
      ensures ec == old(Upcoming())[0]
      ensures Upcoming() == old(Upcoming())[1..]
      ensures sent == if ec.Some? then 0 else |d|
    {
      ec := verdicts[|attempted|];
      attempted := attempted + [d];
      sent := if ec.Some? then 0 else |d|;
    }
  }

  /** How many of `n` sends are attempted when the first error stops the rest. */
  function Attempts(verdicts: seq<Verdict>, n: nat): (r: nat)
    requires n <= |verdicts|
    ensures r <= n
  {
    if n == 0 then 0
    else if verdicts[0].Some? then 1
    else 1 + Attempts(verdicts[1..], n - 1)
  }

  /** The error the whole list ends with. */
  function FinalError(verdicts: seq<Verdict>, n: nat): Verdict
    requires n <= |verdicts|
  {
    if n == 0 then None
    else if verdicts[0].Some? then verdicts[0]
    else FinalError(verdicts[1..], n - 1)
  }

  /** Everything before the last attempt went through; the list succeeds exactly when every send did,
      and then every datagram was attempted. */
  lemma {:induction false} AttemptsAreAPrefix(verdicts: seq<Verdict>, n: nat)
    requires n <= |verdicts|
    ensures forall i | 0 <= i < Attempts(verdicts, n) - 1 :: verdicts[i].None?
    ensures FinalError(verdicts, n).None? <==> forall i | 0 <= i < n :: verdicts[i].None?
    ensures FinalError(verdicts, n).None? ==> Attempts(verdicts, n) == n
    ensures FinalError(verdicts, n).Some? ==>
      Attempts(verdicts, n) > 0 && verdicts[Attempts(verdicts, n) - 1] == FinalError(verdicts, n)
  {
    if n > 0 && verdicts[0].None? {
      AttemptsAreAPrefix(verdicts[1..], n - 1);
      forall i | 0 < i < |verdicts|
        ensures verdicts[i] == verdicts[1..][i - 1]
      {
      }
    }
  }

  /** After `i` of `n` sends, the last of which ended with `ec`: the rest decides, unless it was an error. */
  ghost predicate SoFar(verdicts: seq<Verdict>, n: nat, i: nat, ec: Verdict)
    requires i <= n <= |verdicts|
  {
    if ec.Some? then i > 0 && Attempts(verdicts, n) == i && FinalError(verdicts, n) == ec
    else
      && Attempts(verdicts, n) == i + Attempts(verdicts[i..], n - i)
      && FinalError(verdicts, n) == FinalError(verdicts[i..], n - i)
  }

  lemma OneMore(verdicts: seq<Verdict>, n: nat, i: nat)
    requires i < n <= |verdicts| && SoFar(verdicts, n, i, None)
    ensures SoFar(verdicts, n, i + 1, verdicts[i])
  {
    assert verdicts[i..][1..] == verdicts[i + 1..];
  }

  /** The loop of `send_to`: stops at the first error and returns the bytes sent so far. */
  method SendList(net: Network, list: seq<bytes>) returns (sent: nat, ec: Verdict)
    requires net.Ready(|list|)
    modifies net
    ensures var n := Attempts(old(net.Upcoming()), |list|);
      && net.attempted == old(net.attempted) + list[..n]
      && ec == FinalError(old(net.Upcoming()), |list|)
      && (ec.Some? ==> n > 0)
      && sent == |Concat(list[..if ec.Some? then n - 1 else n])|
  {
    sent, ec := 0, None;
    var i := 0;
    ghost var start := net.Upcoming();
    while i < |list| && ec.None?
      invariant 0 <= i <= |list|
      invariant net.attempted == old(net.attempted) + list[..i]
      invariant ec.None? ==> net.Ready(|list| - i) && net.Upcoming() == start[i..]
      invariant SoFar(start, |list|, i, ec)
      invariant sent == |Concat(list[..if ec.Some? then i - 1 else i])|
      decreases |list| - i
    {
      var bytesSent;
      bytesSent, ec := net.SendTo(list[i]);
      OneMore(start, |list|, i);
      assert start[i..][1..] == start[i + 1..];
      ConcatSplit(list, i);
      sent := sent + bytesSent;
      i := i + 1;
    }
    assert ec.None? ==> list[..i] == list;
  }

  /** The caller's completion handler, with the errors it was called with. */
  class Completion {
    var calls: seq<Verdict>

    constructor ()
      ensures calls == []
    {
      calls := [];
    }

    method Call(ec: Verdict)
      modifies this
      ensures calls == old(calls) + [ec]
    {
      calls := calls + [ec];
    }
  }

  /** The chain of asynchronous sends, each started by the completion of the one before. */
  method AsyncSendList(net: Network, list: seq<bytes>, start: nat, handler: Completion)
    requires start <= |list| && net.Ready(|list| - start)
    modifies net, handler
    ensures var n := Attempts(old(net.Upcoming()), |list| - start);
      && net.attempted == old(net.attempted) + list[start..start + n]
      && handler.calls == old(handler.calls) + [FinalError(old(net.Upcoming()), |list| - start)]
    decreases |list| - start
  {
    if start == |list| {
      handler.Call(None);
      return;
    }
    var _, ec := net.SendTo(list[start]);
    if ec.Some? {
      handler.Call(ec);
      return;
    }
    AsyncSendList(net, list, start + 1, handler);
  }
}
