/** The listener's lifecycle around the handler, and every run of the two together.

Closing is one process: its first call stops the handler, asks the listener to drain and registers for
idleness, all in one step; when the drain has settled either way and the handler was idle, the runtime
is closed.  Requests enter and leave at any moment in between.
*/
module ApiServer {
  import opened Options
  import opened ApiHandler

  datatype Drain = Draining | Drained | DrainRejected

  /** `Running` until somebody closes; then one shutdown that every later call shares. */
  datatype Shutdown = Running | Closing(drain: Drain, waiter: Option<nat>) | Closed(succeeded: bool)

  // ---------- the two steps of closing ----------

  function CloseCalled(h: ApiHandler.State, d: Shutdown, w: nat): (ApiHandler.State, Shutdown) {
    if !d.Running? then (h, d)
    else
      var (after, now) := Waited(Stopped(h), w);
      (after, Closing(Draining, if now then None else Some(w)))
  }

  /** Both promises of the shutdown have settled. */
  predicate CanFinish(h: ApiHandler.State, d: Shutdown) {
    d.Closing? && !d.drain.Draining? && (d.waiter.Some? ==> d.waiter.value in h.woken)
  }

  class Listener {
    const handler: Handler
    var shutdown: Shutdown
    var runtimeCloses: nat

    constructor (handler: Handler)
      ensures this.handler == handler && shutdown.Running? && runtimeCloses == 0
    {
      this.handler := handler;
      shutdown := Running;
      runtimeCloses := 0;
    }

    /** Closing, up to its first await; a repeated call changes nothing. */
    method Close(w: nat)
      modifies this`shutdown, handler`ready, handler`stopping, handler`idleWaiters
      ensures (handler.Value(), shutdown) == old(CloseCalled(handler.Value(), shutdown, w))
    {
      if !shutdown.Running? { return; }
      handler.BeginShutdown();
      var now := handler.WhenIdle(w);
      shutdown := Closing(Draining, if now then None else Some(w));
    }

    method DrainSettled(rejected: bool)
      requires shutdown.Closing? && shutdown.drain.Draining?
      modifies this`shutdown
      ensures shutdown == old(shutdown).(drain := if rejected then DrainRejected else Drained)
    {
      shutdown := shutdown.(drain := if rejected then DrainRejected else Drained);
    }

    /** The rest of closing: the runtime is closed whatever became of the drain. */
    method Finish(runtimeThrows: bool)
      requires CanFinish(handler.Value(), shutdown)
      modifies this
      ensures runtimeCloses == old(runtimeCloses) + 1
      ensures shutdown == Closed(old(shutdown.drain.Drained?) && !runtimeThrows)
    {
      var succeeded := !shutdown.drain.DrainRejected?;
      runtimeCloses := runtimeCloses + 1;
      if runtimeThrows { succeeded := false; }
      shutdown := Closed(succeeded);
    }
  }

  // ---------- every run ----------

  /** Requests are numbered by arrival.  `holding` are those between their admission and their cleanup;
  `answered` is what each other one was told. */
  datatype World = World(
    handler: ApiHandler.State, shutdown: Shutdown, arrived: nat, holding: set<nat>, waiters: nat, runtimeCloses: nat)

  datatype Action =
    | MarkReady
    | Arrive(request: Request)
    | Leave(id: nat)
    | WaitForIdle
    | Close
    | SettleDrain(rejected: bool)
    | Finish(runtimeThrows: bool)

  predicate Enabled(s: World, a: Action) {
    match a
    case Leave(id) => id in s.holding && s.handler.active > 0
    case SettleDrain(_) => s.shutdown.Closing? && s.shutdown.drain.Draining?
    case Finish(_) => CanFinish(s.handler, s.shutdown)
    case _ => true
  }

  function Next(s: World, a: Action, max: nat): World
    requires Enabled(s, a)
  {
    match a
    case MarkReady => s.(handler := WithReady(s.handler))
    case Arrive(r) =>
      var (h, verdict) := Entered(s.handler, r, max);
      s.(handler := h, arrived := s.arrived + 1,
         holding := if verdict.Admitted? then s.holding + {s.arrived} else s.holding)
    case Leave(id) => s.(handler := Left(s.handler), holding := s.holding - {id})
    case WaitForIdle => s.(handler := Waited(s.handler, s.waiters).0, waiters := s.waiters + 1)
    case Close =>
      var (h, d) := CloseCalled(s.handler, s.shutdown, s.waiters);
      s.(handler := h, shutdown := d, waiters := if s.shutdown.Running? then s.waiters + 1 else s.waiters)
    case SettleDrain(rejected) => s.(shutdown := s.shutdown.(drain := if rejected then DrainRejected else Drained))
    case Finish(throws) => s.(shutdown := Closed(s.shutdown.drain.Drained? && !throws), runtimeCloses := s.runtimeCloses + 1)
  }

  const START := World(INITIAL, Running, 0, {}, 0, 0)

  /** The state after a list of actions, when each is enabled in its turn. */
  function After(s: World, actions: seq<Action>, max: nat): Option<World>
    decreases |actions|
  {
    if actions == [] then Some(s)
    else if !Enabled(s, actions[0]) then None
    else After(Next(s, actions[0], max), actions[1..], max)
  }

  /** What every step keeps. */
  ghost predicate Inv(s: World, max: nat) {
    && Valid(s.handler, max)
    && s.handler.active == |s.holding|
    && (forall id :: id in s.holding ==> id < s.arrived)
    && (forall w :: w in s.handler.waiting + s.handler.woken ==> w < s.waiters)
    && (s.handler.waiting !! s.handler.woken)
    && (s.handler.stopping <==> !s.shutdown.Running?)
    && ShutdownInv(s)
  }

  /** The shutdown's waiter is never lost, and once it may finish nothing runs any more. */
  ghost predicate ShutdownInv(s: World) {
    match s.shutdown
    case Running => s.runtimeCloses == 0
    case Closing(_, w) =>
      && s.runtimeCloses == 0
      && (w.None? ==> s.handler.active == 0)
      && (w.Some? ==> if s.handler.active == 0 then w.value in s.handler.woken else w.value in s.handler.waiting)
    case Closed(_) => s.runtimeCloses == 1 && s.handler.active == 0
  }

  lemma ArriveKeeps(s: World, r: Request, max: nat)
    requires Inv(s, max)
    ensures Inv(Next(s, Arrive(r), max), max)
  {
    AdmittedIff(s.handler, r, max);
    assert s.arrived !in s.holding;
    assert |s.holding + {s.arrived}| == |s.holding| + 1;
  }

  lemma LeaveKeeps(s: World, id: nat, max: nat)
    requires Inv(s, max) && Enabled(s, Leave(id))
    ensures Inv(Next(s, Leave(id), max), max)
  {
    var after := Next(s, Leave(id), max);
    assert |after.holding| == |s.holding| - 1;
    assert after.handler.waiting + after.handler.woken == s.handler.waiting + s.handler.woken;
  }

  /** A new waiter is registered only while some slot is taken. */
  lemma WaitedKeeps(h: ApiHandler.State, w: nat, max: nat)
    requires Valid(h, max) && w !in h.waiting && w !in h.woken && h.waiting !! h.woken
    ensures var after := Waited(h, w).0;
      && Valid(after, max) && after.waiting !! after.woken && after.woken == h.woken && after.active == h.active
      && after.waiting <= h.waiting + {w} && after.stopping == h.stopping
      && (if Waited(h, w).1 then h.active == 0 else h.active > 0 && after.waiting == h.waiting + {w})
  {
  }

  lemma WaitKeeps(s: World, max: nat)
    requires Inv(s, max)
    ensures Inv(Next(s, WaitForIdle, max), max)
  {
    assert s.waiters !in s.handler.waiting + s.handler.woken;
    WaitedKeeps(s.handler, s.waiters, max);
    var after := Next(s, WaitForIdle, max);
    forall w | w in after.handler.waiting + after.handler.woken ensures w < after.waiters {
      assert w == s.waiters || w in s.handler.waiting + s.handler.woken;
    }
  }

  lemma CloseKeeps(s: World, max: nat)
    requires Inv(s, max)
    ensures Inv(Next(s, Close, max), max)
  {
    if s.shutdown.Running? {
      assert s.waiters !in s.handler.waiting + s.handler.woken;
      WaitedKeeps(Stopped(s.handler), s.waiters, max);
      var after := Next(s, Close, max);
      forall w | w in after.handler.waiting + after.handler.woken ensures w < after.waiters {
        assert w == s.waiters || w in s.handler.waiting + s.handler.woken;
      }
    }
  }

  /** One step, from any state a run can reach. */
  lemma StepKeeps(s: World, a: Action, max: nat)
    requires Inv(s, max) && Enabled(s, a)
    ensures Inv(Next(s, a, max), max)
  {
    match a
    case Arrive(r) => ArriveKeeps(s, r, max);
    case Leave(id) => LeaveKeeps(s, id, max);
    case WaitForIdle => WaitKeeps(s, max);
    case Close => CloseKeeps(s, max);
    case _ =>
  }

  lemma {:induction false} RunKeeps(s: World, actions: seq<Action>, max: nat)
    requires Inv(s, max) && After(s, actions, max).Some?
    ensures Inv(After(s, actions, max).value, max)
    decreases |actions|
  {
    if actions != [] {
      StepKeeps(s, actions[0], max);
      RunKeeps(Next(s, actions[0], max), actions[1..], max);
    }
  }

  /** Every run: the active count is the number of requests that hold a slot and at most the limit,
  somebody waits for idleness only while some slot is taken, a stopping server is not ready, and the
  runtime is closed at most once, after the last slot was given back. */
  lemma EveryRun(actions: seq<Action>, max: nat)
    requires After(START, actions, max).Some?
    ensures var now := After(START, actions, max).value;
      && Inv(now, max) && now.handler.active == |now.holding| <= max
      && (now.handler.waiting != {} ==> now.holding != {})
      && (now.handler.stopping ==> !now.handler.ready)
      && now.runtimeCloses <= 1 && (now.runtimeCloses == 1 ==> now.holding == {})
  {
    RunKeeps(START, actions, max);
  }

  // ---------- while the server is open ----------

  /** The listener was marked ready, and nobody closed it. */
  predicate IsOpen(actions: seq<Action>) { MarkReady in actions && Close !in actions }

  lemma {:induction false} ReadyFrom(s: World, actions: seq<Action>, max: nat)
    requires Inv(s, max) && After(s, actions, max).Some?
    ensures var now := After(s, actions, max).value;
      && (now.shutdown.Running? <==> s.shutdown.Running? && Close !in actions)
      && (now.handler.ready <==> s.shutdown.Running? && Close !in actions && (s.handler.ready || MarkReady in actions))
    decreases |actions|
  {
    if actions != [] {
      StepKeeps(s, actions[0], max);
      ReadyFrom(Next(s, actions[0], max), actions[1..], max);
      assert actions == [actions[0]] + actions[1..];
    }
  }

  /** In every run: the server is ready exactly from the moment it was marked ready until somebody closes it. */
  lemma ReadyIffOpen(actions: seq<Action>, max: nat)
    requires After(START, actions, max).Some?
    ensures var now := After(START, actions, max).value;
      (now.handler.ready <==> IsOpen(actions)) && (now.shutdown.Running? <==> Close !in actions)
  {
    ReadyFrom(START, actions, max);
  }

  /** A request whose method, route and, for a GET, body were accepted. */
  predicate IsAccepted(r: Request) { !r.wrongMethod && r.routeFailure.None? && (r.IsGet() ==> r.bodyFailure.None?) }

  /** A request for a trace, a compilation or an evaluation. */
  predicate IsWork(r: Request) { r.route.Trace? || r.route.Compile? || r.route.Evaluation? }

  /** What any request is told at any moment of any run, in the order the handler asks: the method, the route, a
  body on a GET, then what it is for.  Before the server is marked ready and after somebody closed it, work and
  the readiness probe get 503; while it is open the probe gets 200, and work with good headers is admitted while
  fewer than the limit hold a slot. */
  lemma EveryAnswer(actions: seq<Action>, r: Request, max: nat)
    requires After(START, actions, max).Some?
    ensures var now := After(START, actions, max).value;
      var verdict := Entered(now.handler, r, max).1;
      && (r.wrongMethod ==> verdict == Responded(405))
      && (!r.wrongMethod && r.routeFailure.Some? ==> verdict == Responded(r.routeFailure.value))
      && (!r.wrongMethod && r.routeFailure.None? && r.IsGet() && r.bodyFailure.Some? ==> verdict == Responded(r.bodyFailure.value))
      && (IsAccepted(r) && r.route.Health? ==> verdict == Responded(200))
      && (IsAccepted(r) && r.route.Ready? ==> verdict == Responded(if IsOpen(actions) then 200 else 503))
      && (IsAccepted(r) && IsWork(r) && !IsOpen(actions) ==> verdict == Responded(503))
      && (IsAccepted(r) && IsWork(r) && IsOpen(actions) && !r.route.Trace? && r.headerFailure.Some? ==>
            verdict == Responded(r.headerFailure.value))
      && (IsAccepted(r) && IsWork(r) && IsOpen(actions) && (r.route.Trace? || r.headerFailure.None?) ==>
            verdict == if |now.holding| < max then Admitted else Responded(503))
  {
    ReadyIffOpen(actions, max);
    RunKeeps(START, actions, max);
  }

  /** A well-formed request for work on an open server takes a slot, if one is free, and can give it back. */
  lemma OpenServerServes(actions: seq<Action>, r: Request, max: nat)
    requires After(START, actions, max).Some? && IsOpen(actions) && |After(START, actions, max).value.holding| < max
    requires IsAccepted(r) && IsWork(r) && (r.route.Trace? || r.headerFailure.None?)
    ensures var now := After(START, actions, max).value; var served := Next(now, Arrive(r), max);
      && served.holding == now.holding + {now.arrived} && now.arrived !in now.holding
      && Enabled(served, Leave(now.arrived)) && Next(served, Leave(now.arrived), max).holding == now.holding
  {
    EveryAnswer(actions, r, max);
    RunKeeps(START, actions, max);
    StepKeeps(After(START, actions, max).value, Arrive(r), max);
  }

  /** Once somebody closed, no run ever makes the server ready again or takes a slot: requests only
  leave, and whoever arrives is turned away. */
  lemma {:induction false} StoppingIsForever(s: World, actions: seq<Action>, max: nat)
    requires Inv(s, max) && !s.shutdown.Running? && After(s, actions, max).Some?
    ensures var now := After(s, actions, max).value;
      && !now.shutdown.Running? && now.handler.stopping && !now.handler.ready
      && now.holding <= s.holding && now.handler.active <= s.handler.active
      && (s.runtimeCloses == 1 ==> now.runtimeCloses == 1)
    decreases |actions|
  {
    if actions != [] {
      var after := Next(s, actions[0], max);
      StepKeeps(s, actions[0], max);
      StoppingIsForever(after, actions[1..], max);
      assert after.handler.active <= s.handler.active;
    }
  }

  /** What callers are told at any moment after somebody closed: work is refused, the readiness probe
  answers 503, and the health probe still answers 200. */
  lemma ClosedAnswers(s: World, actions: seq<Action>, r: Request, max: nat)
    requires Inv(s, max) && !s.shutdown.Running? && After(s, actions, max).Some?
    requires !r.wrongMethod && r.routeFailure.None? && r.bodyFailure.None?
    ensures var (h, verdict) := Entered(After(s, actions, max).value.handler, r, max);
      h == After(s, actions, max).value.handler && verdict == Responded(if r.route.Health? then 200 else 503)
  {
    StoppingIsForever(s, actions, max);
  }

  /** The runtime can be closed exactly when the drain has settled, whichever way, and no request holds
  a slot. */
  lemma FinishIffIdle(s: World, max: nat)
    requires Inv(s, max) && s.shutdown.Closing?
    ensures CanFinish(s.handler, s.shutdown) <==> !s.shutdown.drain.Draining? && s.holding == {}
  {
  }

  /** A promise once handed out is waiting until it is resolved, and resolved for good. */
  lemma {:induction false} WaitersAreKept(s: World, actions: seq<Action>, max: nat)
    requires After(s, actions, max).Some?
    ensures var now := After(s, actions, max).value;
      && s.handler.waiting <= now.handler.waiting + now.handler.woken
      && s.handler.woken <= now.handler.woken
    decreases |actions|
  {
    if actions != [] { WaitersAreKept(Next(s, actions[0], max), actions[1..], max); }
  }

  /** No wake-up is lost: in any run that reaches a moment without slot holders, everybody who waited
  before has been woken, and a shutdown whose drain has settled can finish there. */
  lemma IdleWakesEveryone(s: World, actions: seq<Action>, max: nat)
    requires Inv(s, max) && After(s, actions, max).Some? && After(s, actions, max).value.holding == {}
    ensures var now := After(s, actions, max).value;
      && s.handler.waiting <= now.handler.woken && now.handler.waiting == {}
      && (now.shutdown.Closing? && !now.shutdown.drain.Draining? ==> CanFinish(now.handler, now.shutdown))
  {
    RunKeeps(s, actions, max);
    WaitersAreKept(s, actions, max);
  }

  function Leaves(ids: seq<nat>): (actions: seq<Action>)
    ensures |actions| == |ids|
  {
    if ids == [] then [] else [Leave(ids[0])] + Leaves(ids[1..])
  }

  /** The slot holders can always leave, in any order, and when the last is gone nobody is left waiting. */
  lemma {:induction false} HoldersCanLeave(s: World, ids: seq<nat>, max: nat)
    requires Inv(s, max) && (forall id :: id in ids <==> id in s.holding)
    requires forall i, j :: 0 <= i < j < |ids| ==> ids[i] != ids[j]
    ensures After(s, Leaves(ids), max).Some?
    ensures After(s, Leaves(ids), max).value.holding == {}
    ensures s.handler.waiting <= After(s, Leaves(ids), max).value.handler.woken
    decreases |ids|
  {
    if ids == [] {
      assert s.holding == {};
    } else {
      assert ids[0] in s.holding;
      var after := Next(s, Leave(ids[0]), max);
      StepKeeps(s, Leave(ids[0]), max);
      assert forall id :: id in ids[1..] <==> id in after.holding;
      HoldersCanLeave(after, ids[1..], max);
      assert Leaves(ids)[1..] == Leaves(ids[1..]);
      IdleWakesEveryone(s, Leaves(ids), max);
    }
  }

  // ---------- how a shutdown ends ----------

  predicate Finished(actions: seq<Action>) { Finish(true) in actions || Finish(false) in actions }

  /** The drain of a shutdown has settled already, or does so among these actions, that way. */
  predicate SettlesAs(s: World, actions: seq<Action>, rejected: bool) {
    || (s.shutdown.Closing? && s.shutdown.drain == if rejected then DrainRejected else Drained)
    || SettleDrain(rejected) in actions
  }

  /** What the actions make of the shutdown. */
  ghost predicate EndsAs(s: World, actions: seq<Action>, now: Shutdown) {
    && (s.shutdown.Closed? ==> !Finished(actions) && now == s.shutdown)
    && (s.shutdown.Closed? || (s.shutdown.Closing? && !s.shutdown.drain.Draining?) ==>
          SettleDrain(true) !in actions && SettleDrain(false) !in actions)
    && (now.Closed? <==> s.shutdown.Closed? || Finished(actions))
    && (now.Closed? && !s.shutdown.Closed? ==> (now.succeeded <==> SettlesAs(s, actions, false) && Finish(false) in actions))
    && (now.Closing? ==> (now.drain.Drained? <==> SettlesAs(s, actions, false)))
    && (now.Closing? ==> (now.drain.DrainRejected? <==> SettlesAs(s, actions, true)))
  }

  lemma ConsMembers(a: Action, rest: seq<Action>)
    ensures forall b :: b in [a] + rest <==> b == a || b in rest
  {
  }

  /** An action that leaves the shutdown alone, or only starts it. */
  lemma OtherStep(s: World, a: Action, rest: seq<Action>, now: Shutdown, max: nat)
    requires Enabled(s, a) && !a.SettleDrain? && !a.Finish? && EndsAs(Next(s, a, max), rest, now)
    ensures EndsAs(s, [a] + rest, now)
  {
    ConsMembers(a, rest);
    assert Next(s, a, max).shutdown == s.shutdown || (s.shutdown.Running? && Next(s, a, max).shutdown.Closing? && Next(s, a, max).shutdown.drain.Draining?);
  }

  lemma SettleStep(s: World, rejected: bool, rest: seq<Action>, now: Shutdown, max: nat)
    requires Enabled(s, SettleDrain(rejected)) && EndsAs(Next(s, SettleDrain(rejected), max), rest, now)
    ensures EndsAs(s, [SettleDrain(rejected)] + rest, now)
  {
    ConsMembers(SettleDrain(rejected), rest);
  }

  lemma FinishStep(s: World, throws: bool, rest: seq<Action>, now: Shutdown, max: nat)
    requires Enabled(s, Finish(throws)) && EndsAs(Next(s, Finish(throws), max), rest, now)
    ensures EndsAs(s, [Finish(throws)] + rest, now)
  {
    ConsMembers(Finish(throws), rest);
  }

  lemma {:induction false} RunEndsAs(s: World, actions: seq<Action>, max: nat)
    requires After(s, actions, max).Some?
    ensures EndsAs(s, actions, After(s, actions, max).value.shutdown)
    decreases |actions|
  {
    if actions != [] {
      var a, rest, now := actions[0], actions[1..], After(s, actions, max).value.shutdown;
      RunEndsAs(Next(s, a, max), rest, max);
      assert actions == [a] + rest;
      match a
      case SettleDrain(rejected) => SettleStep(s, rejected, rest, now, max);
      case Finish(throws) => FinishStep(s, throws, rest, now, max);
      case _ => OtherStep(s, a, rest, now, max);
    }
  }

  /** Every run: the shutdown is over exactly when the runtime was closed, and it succeeded exactly when the drain
  settled without an error and closing the runtime did not throw. */
  lemma ShutdownOutcome(actions: seq<Action>, max: nat)
    requires After(START, actions, max).Some?
    ensures var now := After(START, actions, max).value.shutdown;
      && (now.Closed? <==> Finished(actions))
      && (now.Closed? ==> (now.succeeded <==> SettleDrain(false) in actions && Finish(false) in actions))
      && (now.Closing? ==> (now.drain.Drained? <==> SettleDrain(false) in actions))
      && (now.Closing? ==> (now.drain.DrainRejected? <==> SettleDrain(true) in actions))
  {
    RunEndsAs(START, actions, max);
  }

  /** Closing again, at any later moment of any run, changes nothing. */
  lemma CloseIsShared(s: World, actions: seq<Action>, max: nat)
    requires Inv(s, max) && After(Next(s, Close, max), actions, max).Some?
    ensures var now := After(Next(s, Close, max), actions, max).value; Next(now, Close, max) == now
  {
    StepKeeps(s, Close, max);
    StoppingIsForever(Next(s, Close, max), actions, max);
  }
}
