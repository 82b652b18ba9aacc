/** Runs of the whole receiver: datagrams of any senders and expiry sweeps, in any order. What the
    receiver does for one key depends on that key's datagrams and the sweeps alone. */
module Interleaving {
  import opened Basics
  import opened ReassemblyV5
  import P = PackageStep

  datatype Action = Datagram(sender: Endpoint, data: bytes, now: int) | Purge(cutoff: int)

  function Act(s: PackageMap, a: Action): (PackageMap, P.Reply) {
    match a
    case Datagram(sender, data, now) => Handle(s, sender, data, now)
    case Purge(cutoff) => (Sweep(s, cutoff), P.Quiet(P.OK))
  }

  function RunAll(s: PackageMap, actions: seq<Action>): (r: (PackageMap, seq<P.Reply>))
    ensures |r.1| == |actions|
    decreases |actions|
  {
    if actions == [] then (s, [])
    else
      var (next, reply) := Act(s, actions[0]);
      var (last, replies) := RunAll(next, actions[1..]);
      (last, [reply] + replies)
  }

  lemma {:induction false} RunAllConcat(s: PackageMap, a: seq<Action>, b: seq<Action>)
    ensures RunAll(s, a + b).0 == RunAll(RunAll(s, a).0, b).0
    ensures RunAll(s, a + b).1 == RunAll(s, a).1 + RunAll(RunAll(s, a).0, b).1
    decreases |a|
  {
    if a == [] {
      assert a + b == b;
    } else {
      assert (a + b)[1..] == a[1..] + b;
      RunAllConcat(Act(s, a[0]).0, a[1..], b);
    }
  }

  lemma RunAllFirst(s: PackageMap, a: Action, more: seq<Action>)
    ensures RunAll(s, [a] + more) == (RunAll(Act(s, a).0, more).0, [Act(s, a).1] + RunAll(Act(s, a).0, more).1)
  {
    assert ([a] + more)[1..] == more;
  }

  /** What an action means for the entry of key `k`, if anything. */
  function Toward(a: Action, k: Key): Option<P.Event> {
    match a
    case Purge(cutoff) => Some(P.Expire(cutoff))
    case Datagram(sender, data, now) =>
      match Addressed(sender, data)
      case Some((key, m)) => if key == k then Some(P.Arrive(m, now)) else None
      case None => None
  }

  function Project(actions: seq<Action>, k: Key): (es: seq<P.Event>)
    ensures |es| <= |actions|
    decreases |actions|
  {
    if actions == [] then []
    else
      var rest := Project(actions[1..], k);
      match Toward(actions[0], k)
      case Some(e) => [e] + rest
      case None => rest
  }

  /** The replies given at the actions that concern key `k`. */
  function RepliesFor(actions: seq<Action>, replies: seq<P.Reply>, k: Key): seq<P.Reply>
    requires |actions| == |replies|
    decreases |actions|
  {
    if actions == [] then []
    else
      var rest := RepliesFor(actions[1..], replies[1..], k);
      if Toward(actions[0], k).Some? then [replies[0]] + rest else rest
  }

  /** A step leaves the entries of all keys it does not concern alone. */
  lemma OtherKeysUntouched(s: PackageMap, a: Action, k: Key)
    requires Toward(a, k).None?
    ensures Lookup(Act(s, a).0, k) == Lookup(s, k)
  {
  }

  /** A step for `k` is the step of `k`'s entry; no other entry matters. */
  lemma StepIsLocal(s: PackageMap, a: Action, k: Key)
    requires Toward(a, k).Some?
    ensures P.Step(Lookup(s, k), Toward(a, k).value) == (Lookup(Act(s, a).0, k), Act(s, a).1)
  {
  }

  /** Non-interference: a run over any interleaving, looked at through key `k`, is the run on the
      stream of `k` alone, both in the final entry and in every reply. */
  lemma {:induction false} Projection(s: PackageMap, actions: seq<Action>, k: Key)
    ensures var (last, replies) := RunAll(s, actions);
      P.Run(Lookup(s, k), Project(actions, k)) == (Lookup(last, k), RepliesFor(actions, replies, k))
    decreases |actions|
  {
    if actions != [] {
      var (next, reply) := Act(s, actions[0]);
      Projection(next, actions[1..], k);
      assert RunAll(s, actions).1[1..] == RunAll(next, actions[1..]).1;
      if Toward(actions[0], k).Some? {
        StepIsLocal(s, actions[0], k);
        var es := Project(actions, k);
        assert es[0] == Toward(actions[0], k).value && es[1..] == Project(actions[1..], k);
      } else {
        OtherKeysUntouched(s, actions[0], k);
      }
    }
  }

  /** So two runs that agree on `k`'s stream and `k`'s entry agree on everything `k` sees, whatever
      else arrives in between. */
  lemma NonInterference(s: PackageMap, actions: seq<Action>, t: PackageMap, others: seq<Action>, k: Key)
    requires Lookup(s, k) == Lookup(t, k)
    requires Project(actions, k) == Project(others, k)
    ensures Lookup(RunAll(s, actions).0, k) == Lookup(RunAll(t, others).0, k)
    ensures RepliesFor(actions, RunAll(s, actions).1, k) == RepliesFor(others, RunAll(t, others).1, k)
  {
    Projection(s, actions, k);
    Projection(t, others, k);
  }
}
