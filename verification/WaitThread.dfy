/** The wait thread of the asynchronous Npcap socket: any number of threads calling
    `asyncReceiveFrom` and `close`, and the one thread that waits for requests and serves them, as a
    system of interleaved steps. Each step is one access to shared state or one operation on the mutex
    or the condition variable. */
module WaitThread {
  import opened Basics

  type Request = nat

  /** Where a calling thread is. The names say what it does next. */
  datatype Caller =
    | LockToPush(request: Request)
    | Push(request: Request)
    | NotifyPushed
    | LockToNotify
    | NotifyClosed
    | Unlock
    | Done

  /** Where the wait thread is. `Test`: in the predicate, about to read the closed flag. `TestQueue`:
      read it as open, about to look at the queue. `Ready`: past the wait. `Check`: popped, about to
      decide whether to exit. */
  datatype Waiter =
    | LockFirst
    | Test
    | TestQueue
    | Asleep
    | Woken
    | Ready
    | Check(popped: Option<Request>)
    | Serve(popped: Option<Request>)
    | Exited(popped: Option<Request>)

  datatype Owner = Free | ByWaiter | ByCaller(thread: nat)

  /** `accepted` and `handled` record the requests in the order they were queued and served. */
  datatype State = State(
    queue: seq<Request>,
    closed: bool,
    mutex: Owner,
    callers: seq<Caller>,
    waiter: Waiter,
    accepted: seq<Request>,
    handled: seq<Request>)

  const INITIAL: State := State([], false, Free, [], LockFirst, [], [])

  datatype Step =
    | CallAsyncReceive(request: Request)
    | CallClose
    | CallerStep(thread: nat)
    | WaiterStep
    | SpuriousWakeup

  // -------------------------------------------------------------------- steps

  predicate Holds(c: Caller) {
    c.Push? || c.NotifyPushed? || c.NotifyClosed? || c.Unlock?
  }

  predicate WaiterHolds(w: Waiter) {
    w.Test? || w.TestQueue? || w.Ready? || w.Check?
  }

  predicate Enabled(s: State, step: Step) {
    match step
    case CallAsyncReceive(_) => true
    case CallClose => true
    case CallerStep(t) =>
      && t < |s.callers|
      && !s.callers[t].Done?
      && (s.callers[t].LockToPush? || s.callers[t].LockToNotify? ==> s.mutex.Free?)
    case WaiterStep =>
      && !s.waiter.Asleep? && !s.waiter.Exited?
      && (s.waiter.LockFirst? || s.waiter.Woken? ==> s.mutex.Free?)
    case SpuriousWakeup => s.waiter.Asleep?
  }

  /** `notify_one` with at most one thread waiting. */
  function Notified(w: Waiter): Waiter {
    if w.Asleep? then Woken else w
  }

  function CallerNext(s: State, t: nat): State
    requires t < |s.callers|
  {
    match s.callers[t]
    case LockToPush(r) => s.(mutex := ByCaller(t), callers := s.callers[t := Push(r)])
    case Push(r) =>
      s.(queue := s.queue + [r], accepted := s.accepted + [r], callers := s.callers[t := NotifyPushed])
    case NotifyPushed => s.(waiter := Notified(s.waiter), callers := s.callers[t := Unlock])
    case LockToNotify => s.(mutex := ByCaller(t), callers := s.callers[t := NotifyClosed])
    case NotifyClosed => s.(waiter := Notified(s.waiter), callers := s.callers[t := Unlock])
    case Unlock => s.(mutex := Free, callers := s.callers[t := Done])
    case Done => s
  }

  function WaiterNext(s: State): State {
    match s.waiter
    case LockFirst => s.(mutex := ByWaiter, waiter := Test)
    case Woken => s.(mutex := ByWaiter, waiter := Test)
    case Test => s.(waiter := if s.closed then Ready else TestQueue)
    case TestQueue => if s.queue != [] then s.(waiter := Ready) else s.(mutex := Free, waiter := Asleep)
    case Ready =>
      if s.queue != [] then s.(queue := s.queue[1..], waiter := Check(Some(s.queue[0])))
      else s.(waiter := Check(None))
    case Check(r) =>
      if s.queue == [] && s.closed then s.(mutex := Free, waiter := Exited(r))
      else s.(mutex := Free, waiter := Serve(r))
    case Serve(r) =>
      s.(handled := s.handled + (if r.Some? then [r.value] else []), waiter := LockFirst)
    case Asleep => s
    case Exited(_) => s
  }

  /** The closed flag of the socket below is set before the mutex is taken. */
  function Next(s: State, step: Step): State
    requires Enabled(s, step)
  {
    match step
    case CallAsyncReceive(r) => s.(callers := s.callers + [LockToPush(r)])
    case CallClose => s.(closed := true, callers := s.callers + [LockToNotify])
    case CallerStep(t) => CallerNext(s, t)
    case WaiterStep => WaiterNext(s)
    case SpuriousWakeup => s.(waiter := Woken)
  }

  ghost predicate Execution(s: State, steps: seq<Step>)
    decreases |steps|
  {
    steps == [] || (Enabled(s, steps[0]) && Execution(Next(s, steps[0]), steps[1..]))
  }

  ghost function After(s: State, steps: seq<Step>): State
    requires Execution(s, steps)
    decreases |steps|
  {
    if steps == [] then s else After(Next(s, steps[0]), steps[1..])
  }

  // ---------------------------------------------------------------- invariants

  /** The mutex is held by exactly the thread that is inside. */
  ghost predicate MutexInv(s: State) {
    && (s.mutex.ByWaiter? <==> WaiterHolds(s.waiter))
    && (forall t | 0 <= t < |s.callers| :: Holds(s.callers[t]) <==> s.mutex == ByCaller(t))
    && (s.mutex.ByCaller? ==> s.mutex.thread < |s.callers|)
  }

  /** The request the wait thread has taken from the queue and not served yet. */
  function InFlight(w: Waiter): seq<Request> {
    match w
    case Check(Some(r)) => [r]
    case Serve(Some(r)) => [r]
    case Exited(Some(r)) => [r]
    case _ => []
  }

  /** Every accepted request is, in order, handled, in flight, or queued. */
  ghost predicate ConservationInv(s: State) {
    s.accepted == s.handled + InFlight(s.waiter) + s.queue
  }

  ghost predicate CloserPending(s: State) {
    exists t :: 0 <= t < |s.callers| && (s.callers[t].LockToNotify? || s.callers[t].NotifyClosed?)
  }

  ghost predicate PusherPending(s: State) {
    exists t :: 0 <= t < |s.callers| && s.callers[t].NotifyPushed?
  }

  /** A waiter that sleeps, or is about to after having read the flag as open, will be notified of
      whatever it has missed. */
  ghost predicate WakeupInv(s: State) {
    && (s.waiter.Asleep? || s.waiter.TestQueue? ==> s.closed ==> CloserPending(s))
    && (s.waiter.Asleep? ==> s.queue != [] ==> PusherPending(s))
  }

  /** The wait thread never serves a request it does not have. */
  ghost predicate ServeInv(s: State) {
    && (s.waiter.Ready? ==> s.closed || s.queue != [])
    && (s.waiter.Check? && s.waiter.popped.None? ==> s.closed && s.queue == [])
    && (s.waiter.Serve? ==> s.waiter.popped.Some?)
    && (s.waiter.Exited? ==> s.closed)
  }

  ghost predicate Inv(s: State) {
    MutexInv(s) && ConservationInv(s) && WakeupInv(s) && ServeInv(s)
  }

  lemma CallerKeepsMutex(s: State, t: nat)
    requires Inv(s) && Enabled(s, CallerStep(t))
    ensures MutexInv(CallerNext(s, t)) && ConservationInv(CallerNext(s, t)) && ServeInv(CallerNext(s, t))
  {
  }

  lemma CallerKeepsWakeup(s: State, t: nat)
    requires Inv(s) && Enabled(s, CallerStep(t))
    ensures WakeupInv(CallerNext(s, t))
  {
    var n := CallerNext(s, t);
    if CloserPending(s) && (n.waiter.Asleep? || n.waiter.TestQueue?) {
      var u :| 0 <= u < |s.callers| && (s.callers[u].LockToNotify? || s.callers[u].NotifyClosed?);
      assert n.callers[u].LockToNotify? || n.callers[u].NotifyClosed?;
    }
    if n.waiter.Asleep? && n.queue != [] && s.queue == [] {
      assert n.callers[t].NotifyPushed?;
    }
  }

  lemma WaiterKeeps(s: State)
    requires Inv(s) && Enabled(s, WaiterStep)
    ensures Inv(WaiterNext(s))
  {
    var n := WaiterNext(s);
    if CloserPending(s) {
      assert CloserPending(n);
    }
  }

  lemma StepKeepsInv(s: State, step: Step)
    requires Inv(s) && Enabled(s, step)
    ensures Inv(Next(s, step))
  {
    match step
    case CallAsyncReceive(r) => NewCaller(s, LockToPush(r), s.closed);
    case CallClose => NewCaller(s, LockToNotify, true);
    case CallerStep(t) =>
      CallerKeepsMutex(s, t);
      CallerKeepsWakeup(s, t);
    case WaiterStep => WaiterKeeps(s);
    case SpuriousWakeup =>
  }

  lemma NewCaller(s: State, c: Caller, closed: bool)
    requires Inv(s) && !Holds(c)
    requires s.closed ==> closed
    requires closed && !s.closed ==> c.LockToNotify?
    ensures Inv(s.(closed := closed, callers := s.callers + [c]))
  {
    var n := s.(closed := closed, callers := s.callers + [c]);
    assert n.callers[|s.callers|] == c;
    if CloserPending(s) {
      var u :| 0 <= u < |s.callers| && (s.callers[u].LockToNotify? || s.callers[u].NotifyClosed?);
      assert n.callers[u] == s.callers[u];
    }
    if PusherPending(s) {
      var u :| 0 <= u < |s.callers| && s.callers[u].NotifyPushed?;
      assert n.callers[u] == s.callers[u];
    }
  }

  lemma {:induction false} ExecutionKeepsInv(s: State, steps: seq<Step>)
    requires Inv(s) && Execution(s, steps)
    ensures Inv(After(s, steps))
    decreases |steps|
  {
    if steps != [] {
      StepKeepsInv(s, steps[0]);
      ExecutionKeepsInv(Next(s, steps[0]), steps[1..]);
    }
  }

  ghost predicate Reachable(s: State) {
    exists steps :: Execution(INITIAL, steps) && After(INITIAL, steps) == s
  }

  lemma ReachableInv(s: State)
    requires Reachable(s)
    ensures Inv(s)
  {
    var steps :| Execution(INITIAL, steps) && After(INITIAL, steps) == s;
    ExecutionKeepsInv(INITIAL, steps);
  }

  // ------------------------------------------------------------------ theorems

  /** No lost wakeup: when the wait thread sleeps and no caller is between its change and its notify,
      there is nothing to wake up for. */
  lemma NoLostWakeup(s: State)
    requires Reachable(s) && s.waiter.Asleep?
    requires !CloserPending(s) && !PusherPending(s)
    ensures s.queue == [] && !s.closed
  {
    ReachableInv(s);
  }

  /** Request conservation: accepted requests are served in the order they were accepted, each at most
      once; at most one is in flight; and what is served is always a real request. */
  lemma RequestsAreConserved(s: State)
    requires Reachable(s)
    ensures s.handled <= s.accepted
    ensures s.accepted == s.handled + InFlight(s.waiter) + s.queue
    ensures |InFlight(s.waiter)| <= 1
    ensures s.waiter.Serve? ==> s.waiter.popped.Some?
  {
    ReachableInv(s);
  }

  /** Exit: the step that ends the wait thread leaves an empty queue, and every request accepted so far
      was handled except the one popped in that very iteration. */
  lemma ExitLosesAtMostOne(s: State)
    requires Reachable(s) && Enabled(s, WaiterStep) && WaiterNext(s).waiter.Exited?
    ensures var n := WaiterNext(s);
      && n.closed && n.queue == []
      && n.accepted == n.handled + (if n.waiter.popped.Some? then [n.waiter.popped.value] else [])
  {
    ReachableInv(s);
  }

  lemma {:induction false} ExecutionSnoc(s: State, steps: seq<Step>, step: Step)
    requires Execution(s, steps) && Enabled(After(s, steps), step)
    ensures Execution(s, steps + [step]) && After(s, steps + [step]) == Next(After(s, steps), step)
    decreases |steps|
  {
    if steps == [] {
      assert [step][1..] == [];
    } else {
      ExecutionSnoc(Next(s, steps[0]), steps[1..], step);
      assert (steps + [step])[1..] == steps[1..] + [step];
    }
  }

  lemma ReachableNext(s: State, step: Step, n: State)
    requires Reachable(s) && Enabled(s, step) && n == Next(s, step)
    ensures Reachable(n)
  {
    var steps :| Execution(INITIAL, steps) && After(INITIAL, steps) == s;
    ExecutionSnoc(INITIAL, steps, step);
  }

  lemma OneRequestQueued(r: Request)
    ensures Reachable(State([r], false, Free, [Done], LockFirst, [r], []))
  {
    assert Execution(INITIAL, []) && After(INITIAL, []) == INITIAL;
    var s1 := State([], false, Free, [LockToPush(r)], LockFirst, [], []);
    var s2 := State([], false, ByCaller(0), [Push(r)], LockFirst, [], []);
    var s3 := State([r], false, ByCaller(0), [NotifyPushed], LockFirst, [r], []);
    var s4 := State([r], false, ByCaller(0), [Unlock], LockFirst, [r], []);
    ReachableNext(INITIAL, CallAsyncReceive(r), s1);
    ReachableNext(s1, CallerStep(0), s2);
    ReachableNext(s2, CallerStep(0), s3);
    ReachableNext(s3, CallerStep(0), s4);
    ReachableNext(s4, CallerStep(0), State([r], false, Free, [Done], LockFirst, [r], []));
  }

  /** It does happen: a request accepted before the close whose handler is never called. */
  lemma LastRequestUnhandled(r: Request)
    ensures Reachable(State([], true, Free, [Done, LockToNotify], Exited(Some(r)), [r], []))
  {
    OneRequestQueued(r);
    var callers := [Done, LockToNotify];
    var s5 := State([r], false, Free, [Done], LockFirst, [r], []);
    var s6 := State([r], true, Free, callers, LockFirst, [r], []);
    var s7 := State([r], true, ByWaiter, callers, Test, [r], []);
    var s8 := State([r], true, ByWaiter, callers, Ready, [r], []);
    var s9 := State([], true, ByWaiter, callers, Check(Some(r)), [r], []);
    ReachableNext(s5, CallClose, s6);
    ReachableNext(s6, WaiterStep, s7);
    ReachableNext(s7, WaiterStep, s8);
    ReachableNext(s8, WaiterStep, s9);
    ReachableNext(s9, WaiterStep, State([], true, Free, callers, Exited(Some(r)), [r], []));
  }

  // -------------------------------------------------------------- termination

  /** Steps that do not start a new call. */
  predicate Internal(step: Step) {
    step.CallerStep? || step.WaiterStep? || step.SpuriousWakeup?
  }

  function CallerRank(c: Caller): nat {
    match c
    case LockToPush(_) => 14
    case Push(_) => 13
    case NotifyPushed => 2
    case LockToNotify => 3
    case NotifyClosed => 2
    case Unlock => 1
    case Done => 0
  }

  function WaiterRank(w: Waiter): nat {
    match w
    case TestQueue => 6
    case Asleep => 5
    case Woken => 4
    case LockFirst => 4
    case Test => 3
    case Ready => 2
    case Check(Some(_)) => 6
    case Check(None) => 1
    case Serve(_) => 5
    case Exited(_) => 0
  }

  function CallersRank(cs: seq<Caller>): nat {
    if cs == [] then 0 else CallersRank(cs[..|cs| - 1]) + CallerRank(cs[|cs| - 1])
  }

  function Measure(s: State): nat {
    10 * |s.queue| + WaiterRank(s.waiter) + CallersRank(s.callers)
  }

  lemma {:induction false} RankUpdate(cs: seq<Caller>, t: nat, c: Caller)
    requires t < |cs|
    ensures CallersRank(cs[t := c]) == CallersRank(cs) - CallerRank(cs[t]) + CallerRank(c)
  {
    var n := |cs| - 1;
    if t == n {
      assert cs[t := c][..n] == cs[..n];
    } else {
      RankUpdate(cs[..n], t, c);
      assert cs[t := c][..n] == cs[..n][t := c];
    }
  }

  /** After the close every step of the threads involved makes progress, spurious wakeups included. */
  lemma StepDecreases(s: State, step: Step)
    requires Inv(s) && s.closed && Internal(step) && Enabled(s, step)
    ensures Measure(Next(s, step)) < Measure(s) && Next(s, step).closed
  {
    if step.CallerStep? {
      RankUpdate(s.callers, step.thread, Next(s, step).callers[step.thread]);
    }
  }

  /** After the close some thread can always take a step, without any spurious wakeup, until the wait
      thread has exited. */
  lemma NoDeadlock(s: State)
    requires Inv(s) && s.closed && !s.waiter.Exited?
    ensures exists step :: Internal(step) && !step.SpuriousWakeup? && Enabled(s, step)
  {
    match s.mutex
    case ByCaller(t) => assert Enabled(s, CallerStep(t));
    case ByWaiter => assert Enabled(s, WaiterStep);
    case Free =>
      if s.waiter.Asleep? {
        var t :| 0 <= t < |s.callers| && (s.callers[t].LockToNotify? || s.callers[t].NotifyClosed?);
        assert Enabled(s, CallerStep(t));
      } else {
        assert Enabled(s, WaiterStep);
      }
  }

  lemma {:induction false} InternalStepsAreBounded(s: State, steps: seq<Step>)
    requires Inv(s) && s.closed && Execution(s, steps)
    requires forall step | step in steps :: Internal(step)
    ensures |steps| + Measure(After(s, steps)) <= Measure(s)
    ensures Inv(After(s, steps)) && After(s, steps).closed
    decreases |steps|
  {
    if steps != [] {
      assert steps[0] in steps;
      StepDecreases(s, steps[0]);
      StepKeepsInv(s, steps[0]);
      InternalStepsAreBounded(Next(s, steps[0]), steps[1..]);
    }
  }

  /** Termination: from any reachable state of a closed socket, under any scheduling and as long as no
      new calls are made, only boundedly many steps are possible, and when no thread can take a
      further step the wait thread has exited. */
  lemma ExitsAfterClose(s: State, steps: seq<Step>)
    requires Reachable(s) && s.closed && Execution(s, steps)
    requires forall step | step in steps :: Internal(step)
    ensures |steps| <= Measure(s)
    ensures (forall step | Internal(step) && !step.SpuriousWakeup? :: !Enabled(After(s, steps), step))
      ==> After(s, steps).waiter.Exited?
  {
    ReachableInv(s);
    InternalStepsAreBounded(s, steps);
    if !After(s, steps).waiter.Exited? {
      NoDeadlock(After(s, steps));
    }
  }

  /** Requests that callers have still to push. */
  function Unpushed(cs: seq<Caller>): nat {
    if cs == [] then 0
    else Unpushed(cs[..|cs| - 1]) + (if cs[|cs| - 1].LockToPush? || cs[|cs| - 1].Push? then 1 else 0)
  }

  lemma {:induction false} UnpushedUpdate(cs: seq<Caller>, t: nat, c: Caller)
    requires t < |cs|
    ensures Unpushed(cs[t := c]) ==
      Unpushed(cs) - (if cs[t].LockToPush? || cs[t].Push? then 1 else 0) + (if c.LockToPush? || c.Push? then 1 else 0)
  {
    var n := |cs| - 1;
    if t == n {
      assert cs[t := c][..n] == cs[..n];
    } else {
      UnpushedUpdate(cs[..n], t, c);
      assert cs[t := c][..n] == cs[..n][t := c];
    }
  }

  /** All requests known to the system and not handled yet. */
  function Backlog(s: State): nat {
    |InFlight(s.waiter)| + |s.queue| + Unpushed(s.callers)
  }

  lemma BacklogStep(s: State, step: Step)
    requires Inv(s) && Internal(step) && Enabled(s, step)
    ensures |Next(s, step).handled| + Backlog(Next(s, step)) == |s.handled| + Backlog(s)
  {
    if step.CallerStep? {
      UnpushedUpdate(s.callers, step.thread, Next(s, step).callers[step.thread]);
    }
  }

  /** Without new calls the wait thread goes through at most one more handler per request it has, has
      queued, or is about to be handed. */
  lemma {:induction false} IterationsAreBounded(s: State, steps: seq<Step>)
    requires Inv(s) && Execution(s, steps)
    requires forall step | step in steps :: Internal(step)
    ensures |After(s, steps).handled| - |s.handled| <= Backlog(s)
    ensures |After(s, steps).handled| + Backlog(After(s, steps)) == |s.handled| + Backlog(s)
    decreases |steps|
  {
    if steps != [] {
      assert steps[0] in steps;
      BacklogStep(s, steps[0]);
      StepKeepsInv(s, steps[0]);
      IterationsAreBounded(Next(s, steps[0]), steps[1..]);
    }
  }

  // --------------------------------------------------- which request goes unhandled

  /** There is a request queued, or one popped and not taken on. */
  predicate WillDropOne(s: State) {
    s.queue != [] || (s.waiter.Check? && s.waiter.popped.Some?) || (s.waiter.Exited? && s.waiter.popped.Some?)
  }

  /** On a closed socket: some request that is known to the system will not be handled. */
  predicate Doomed(s: State) {
    WillDropOne(s) || Unpushed(s.callers) > 0
  }

  lemma {:induction false} SomeUnpushed(cs: seq<Caller>, t: nat)
    requires t < |cs| && (cs[t].LockToPush? || cs[t].Push?)
    ensures Unpushed(cs) > 0
  {
    if t < |cs| - 1 {
      SomeUnpushed(cs[..|cs| - 1], t);
    }
  }

  lemma CallerKeepsDoom(s: State, t: nat)
    requires Enabled(s, CallerStep(t))
    ensures Doomed(CallerNext(s, t)) <==> Doomed(s)
  {
    UnpushedUpdate(s.callers, t, CallerNext(s, t).callers[t]);
    if s.callers[t].LockToPush? || s.callers[t].Push? {
      SomeUnpushed(s.callers, t);
    }
  }

  lemma UnpushedAppend(cs: seq<Caller>, c: Caller)
    ensures Unpushed(cs + [c]) == Unpushed(cs) + if c.LockToPush? || c.Push? then 1 else 0
  {
    assert (cs + [c])[..|cs|] == cs;
  }

  /** Once the socket is closed, only a new request changes whether one will be lost. */
  lemma StepKeepsDoom(s: State, step: Step)
    requires Inv(s) && s.closed && Enabled(s, step)
    ensures Next(s, step).closed
    ensures Doomed(Next(s, step)) <==> Doomed(s) || step.CallAsyncReceive?
  {
    match step
    case CallAsyncReceive(r) => UnpushedAppend(s.callers, LockToPush(r));
    case CallClose => UnpushedAppend(s.callers, LockToNotify);
    case CallerStep(t) => CallerKeepsDoom(s, t);
    case WaiterStep =>
    case SpuriousWakeup =>
  }

  ghost predicate NewRequests(steps: seq<Step>) {
    exists step :: step in steps && step.CallAsyncReceive?
  }

  lemma {:induction false} RunKeepsDoom(s: State, steps: seq<Step>)
    requires Inv(s) && s.closed && Execution(s, steps)
    ensures Inv(After(s, steps))
    ensures Doomed(After(s, steps)) <==> Doomed(s) || NewRequests(steps)
    decreases |steps|
  {
    if steps != [] {
      StepKeepsInv(s, steps[0]);
      StepKeepsDoom(s, steps[0]);
      RunKeepsDoom(Next(s, steps[0]), steps[1..]);
      assert steps == [steps[0]] + steps[1..];
      assert NewRequests(steps) <==> steps[0].CallAsyncReceive? || NewRequests(steps[1..]);
    }
  }

  /** Which handlers run after a close, in every execution that ends with the wait thread exited, new
      calls included. All requests reach the queue and are handled if and only if at the start none
      was queued, popped and undecided, or under way to the queue, and none is made later. */
  lemma AllHandledIff(s: State, steps: seq<Step>)
    requires Reachable(s) && s.closed
    requires Execution(s, steps) && After(s, steps).waiter.Exited?
    ensures (After(s, steps).handled == After(s, steps).accepted && Unpushed(After(s, steps).callers) == 0)
      <==> (!WillDropOne(s) && Unpushed(s.callers) == 0 && !NewRequests(steps))
  {
    ReachableInv(s);
    RunKeepsDoom(s, steps);
    var n := After(s, steps);
    assert n.accepted == n.handled + InFlight(n.waiter) + n.queue;
  }

  /** A closed socket that gets no more requests. */
  ghost predicate Draining(s: State) {
    Inv(s) && s.closed && Unpushed(s.callers) == 0 && (s.waiter.Exited? ==> s.queue == [])
  }

  lemma DrainingStep(s: State, step: Step)
    requires Draining(s) && Internal(step) && Enabled(s, step)
    ensures Draining(Next(s, step))
    ensures Next(s, step).accepted == s.accepted
    ensures WillDropOne(Next(s, step)) == WillDropOne(s)
  {
    StepKeepsInv(s, step);
    StepKeepsDoom(s, step);
    if step.CallerStep? {
      var t := step.thread;
      UnpushedUpdate(s.callers, t, Next(s, step).callers[t]);
      if s.callers[t].LockToPush? || s.callers[t].Push? {
        SomeUnpushed(s.callers, t);
      }
    }
  }

  lemma {:induction false} DrainingRun(s: State, steps: seq<Step>)
    requires Draining(s) && Execution(s, steps)
    requires forall step | step in steps :: Internal(step)
    ensures Draining(After(s, steps))
    ensures After(s, steps).accepted == s.accepted
    ensures WillDropOne(After(s, steps)) == WillDropOne(s)
    decreases |steps|
  {
    if steps != [] {
      assert steps[0] in steps;
      DrainingStep(s, steps[0]);
      DrainingRun(Next(s, steps[0]), steps[1..]);
    }
  }

  /** When no request is under way to the queue at the start and none is made later, at most one goes
      unhandled, and it is the last one accepted. */
  lemma OnlyTheLastUnhandled(s: State, steps: seq<Step>)
    requires Reachable(s) && s.closed && Unpushed(s.callers) == 0 && !s.waiter.Exited?
    requires Execution(s, steps) && After(s, steps).waiter.Exited?
    requires forall step | step in steps :: Internal(step)
    ensures After(s, steps).accepted == s.accepted
    ensures WillDropOne(s) ==> s.accepted != []
    ensures After(s, steps).handled == if WillDropOne(s) then s.accepted[..|s.accepted| - 1] else s.accepted
  {
    ReachableInv(s);
    DrainingRun(s, steps);
    var n := After(s, steps);
    assert n.accepted == n.handled + InFlight(n.waiter);
  }

  /** Calls for `requests`, the first `k` of which are over and the others about to begin, and a close
      that has set the flag. */
  function Racing(requests: seq<Request>, k: nat): (r: seq<Caller>)
    ensures |r| == |requests| + 1
  {
    seq(|requests|, i requires 0 <= i < |requests| => if i < k then Done else LockToPush(requests[i])) + [LockToNotify]
  }

  lemma {:induction false} AllCalled(requests: seq<Request>, k: nat)
    requires k <= |requests|
    ensures Reachable(INITIAL.(callers := Racing(requests, 0)[..k]))
  {
    if k == 0 {
      assert Execution(INITIAL, []) && After(INITIAL, []) == INITIAL;
      assert Racing(requests, 0)[..0] == [];
    } else {
      AllCalled(requests, k - 1);
      var s := INITIAL.(callers := Racing(requests, 0)[..k - 1]);
      var r := requests[k - 1];
      assert Racing(requests, 0)[..k] == s.callers + [LockToPush(r)];
      ReachableNext(s, CallAsyncReceive(r), INITIAL.(callers := Racing(requests, 0)[..k]));
    }
  }

  /** The wait thread has exited, and `k` of the calls are over. */
  function Stranded(requests: seq<Request>, k: nat): State
    requires k <= |requests|
  {
    State(requests[..k], true, Free, Racing(requests, k), Exited(None), requests[..k], [])
  }

  lemma ClosedBeforePush(requests: seq<Request>)
    ensures Reachable(AtTheRace(requests))
  {
    AllCalled(requests, |requests|);
    var callers := Racing(requests, 0);
    assert callers[..|requests|] + [LockToNotify] == callers;
    ReachableNext(INITIAL.(callers := callers[..|requests|]), CallClose, AtTheRace(requests));
  }

  /** The threads get from `s` to `n` without new calls. */
  ghost predicate Leads(s: State, n: State) {
    exists steps :: LeadsBy(s, steps, n)
  }

  ghost predicate LeadsBy(s: State, steps: seq<Step>, n: State) {
    Execution(s, steps) && After(s, steps) == n && forall step | step in steps :: Internal(step)
  }

  lemma LeadsNext(s: State, m: State, step: Step, n: State)
    requires Leads(s, m) && Internal(step) && Enabled(m, step) && n == Next(m, step)
    ensures Leads(s, n)
  {
    var steps :| LeadsBy(s, steps, m);
    ExecutionSnoc(s, steps, step);
    assert LeadsBy(s, steps + [step], n);
  }

  /** All calls are about to begin, and the flag is set. */
  function AtTheRace(requests: seq<Request>): State {
    INITIAL.(closed := true, callers := Racing(requests, 0))
  }

  lemma ExitedBeforePush(requests: seq<Request>)
    ensures Leads(AtTheRace(requests), Stranded(requests, 0))
  {
    var s0 := AtTheRace(requests);
    var s1 := s0.(mutex := ByWaiter, waiter := Test);
    var s2 := s1.(waiter := Ready);
    var s3 := s1.(waiter := Check(None));
    assert LeadsBy(s0, [], s0);
    LeadsNext(s0, s0, WaiterStep, s1);
    LeadsNext(s0, s1, WaiterStep, s2);
    LeadsNext(s0, s2, WaiterStep, s3);
    LeadsNext(s0, s3, WaiterStep, Stranded(requests, 0));
  }

  lemma PushStranded(requests: seq<Request>, k: nat)
    requires k < |requests| && Leads(AtTheRace(requests), Stranded(requests, k))
    ensures Leads(AtTheRace(requests), Stranded(requests, k + 1))
  {
    var start, s0, s4 := AtTheRace(requests), Stranded(requests, k), Stranded(requests, k + 1);
    var callers := s0.callers;
    var s1 := s0.(mutex := ByCaller(k), callers := callers[k := Push(requests[k])]);
    var s2 := s1.(queue := s4.queue, accepted := s4.accepted, callers := callers[k := NotifyPushed]);
    var s3 := s2.(callers := callers[k := Unlock]);
    assert s4.queue == s0.queue + [requests[k]];
    assert s1.callers[k := NotifyPushed] == s2.callers && s2.callers[k := Unlock] == s3.callers;
    assert s3.callers[k := Done] == s4.callers;
    LeadsNext(start, s0, CallerStep(k), s1);
    LeadsNext(start, s1, CallerStep(k), s2);
    LeadsNext(start, s2, CallerStep(k), s3);
    LeadsNext(start, s3, CallerStep(k), s4);
  }

  lemma {:induction false} AllStranded(requests: seq<Request>, k: nat)
    requires k <= |requests|
    ensures Leads(AtTheRace(requests), Stranded(requests, k))
  {
    if k == 0 {
      ExitedBeforePush(requests);
    } else {
      AllStranded(requests, k - 1);
      PushStranded(requests, k - 1);
    }
  }

  /** Any number of requests can be lost in the race with a close: calls that began before it, whose
      requests are all accepted and never handled, because the wait thread has exited. */
  lemma AnyNumberUnhandled(requests: seq<Request>)
    ensures Reachable(AtTheRace(requests)) && Unpushed(AtTheRace(requests).callers) == |requests|
    ensures Leads(AtTheRace(requests), Stranded(requests, |requests|))
    ensures var s := Stranded(requests, |requests|);
      s.waiter.Exited? && s.accepted == requests && s.handled == [] && Unpushed(s.callers) == 0
  {
    ClosedBeforePush(requests);
    AllStranded(requests, |requests|);
    RacingUnpushed(requests, 0, |requests|);
    RacingUnpushed(requests, |requests|, |requests|);
    assert Racing(requests, 0)[..|requests|] + [LockToNotify] == Racing(requests, 0);
    assert Racing(requests, |requests|)[..|requests|] + [LockToNotify] == Racing(requests, |requests|);
    UnpushedAppend(Racing(requests, 0)[..|requests|], LockToNotify);
    UnpushedAppend(Racing(requests, |requests|)[..|requests|], LockToNotify);
  }

  lemma {:induction false} RacingUnpushed(requests: seq<Request>, k: nat, n: nat)
    requires n <= |requests|
    ensures Unpushed(Racing(requests, k)[..n]) == if k <= n then n - k else 0
  {
    if n > 0 {
      RacingUnpushed(requests, k, n - 1);
      assert Racing(requests, k)[..n] == Racing(requests, k)[..n - 1] + [Racing(requests, k)[n - 1]];
      UnpushedAppend(Racing(requests, k)[..n - 1], Racing(requests, k)[n - 1]);
    }
  }
}
