/** Admission of requests: readiness, the bounded set of slots, and the waiters for idleness.

The event loop runs the code between two awaits without interruption, so each method here is one
indivisible step: entering runs up to the first await, leaving is the final cleanup.
*/
module ApiHandler {
  import opened Options

  datatype Kind = Health | Ready | Trace | Compile | Evaluation

  /** What routing and header inspection made of a request, each in the order the handler asks. */
  datatype Request = Request(
    wrongMethod: bool, route: Kind, routeFailure: Option<int>, bodyFailure: Option<int>, headerFailure: Option<int>)
  {
    predicate IsGet() { route.Health? || route.Ready? || route.Trace? }
  }

  datatype Verdict = Responded(status: int) | Admitted

  /** `waiting` and `woken` are the promises handed out while some slot was taken. */
  datatype State = State(ready: bool, stopping: bool, active: nat, waiting: set<nat>, woken: set<nat>)

  const INITIAL := State(false, false, 0, {}, {})

  function WithReady(s: State): State { if s.stopping then s else s.(ready := true) }

  function Stopped(s: State): State { s.(ready := false, stopping := true) }

  /** `true` where the promise is resolved at once. */
  function Waited(s: State, w: nat): (State, bool) {
    if s.active == 0 then (s, true) else (s.(waiting := s.waiting + {w}), false)
  }

  function Entered(s: State, r: Request, max: nat): (State, Verdict) {
    if r.wrongMethod then (s, Responded(405))
    else if r.routeFailure.Some? then (s, Responded(r.routeFailure.value))
    else if r.IsGet() && r.bodyFailure.Some? then (s, Responded(r.bodyFailure.value))
    else if r.route.Health? then (s, Responded(200))
    else if r.route.Ready? then (s, Responded(if s.ready then 200 else 503))
    else if !s.ready || s.stopping then (s, Responded(503))
    else if !r.IsGet() && r.headerFailure.Some? then (s, Responded(r.headerFailure.value))
    else if s.active >= max then (s, Responded(503))
    else (s.(active := s.active + 1), Admitted)
  }

  function Left(s: State): State
    requires s.active > 0
  {
    if s.active > 1 then s.(active := s.active - 1)
    else State(s.ready, s.stopping, 0, {}, s.woken + s.waiting)
  }

  /** What one step keeps.  `max` bounds the slots; nobody waits for an idle handler. */
  predicate Valid(s: State, max: nat) {
    && s.active <= max
    && (s.waiting != {} ==> s.active > 0)
    && (s.stopping ==> !s.ready)
  }

  /** A slot is taken exactly by a well-formed request for work, on a ready handler with room. */
  lemma AdmittedIff(s: State, r: Request, max: nat)
    requires Valid(s, max)
    ensures Entered(s, r, max).1.Admitted? <==>
      && !r.wrongMethod && r.routeFailure.None? && (r.route.Trace? || r.route.Compile? || r.route.Evaluation?)
      && (if r.route.Trace? then r.bodyFailure.None? else r.headerFailure.None?)
      && s.ready && s.active < max
    ensures Valid(Entered(s, r, max).0, max)
    ensures Entered(s, r, max).0 == if Entered(s, r, max).1.Admitted? then s.(active := s.active + 1) else s
  {
  }

  class Handler {
    const max: nat
    var ready: bool
    var stopping: bool
    var active: nat
    var idleWaiters: set<nat>
    var resolved: set<nat>

    constructor (max: nat)
      ensures this.max == max && Value() == INITIAL && Valid(Value(), max)
    {
      this.max := max;
      ready, stopping, active := false, false, 0;
      idleWaiters, resolved := {}, {};
    }

    function Value(): State
      reads this
    {
      State(ready, stopping, active, idleWaiters, resolved)
    }

    method MarkReady()
      modifies this`ready
      ensures Value() == WithReady(old(Value()))
    {
      if !stopping { ready := true; }
    }

    method BeginShutdown()
      modifies this`ready, this`stopping
      ensures Value() == Stopped(old(Value()))
    {
      ready := false;
      stopping := true;
    }

    method WhenIdle(w: nat) returns (now: bool)
      modifies this`idleWaiters
      ensures (Value(), now) == Waited(old(Value()), w)
    {
      if active == 0 { return true; }
      idleWaiters := idleWaiters + {w};
      return false;
    }

    /** The handler up to its first await; the answer is final unless the request was admitted. */
    method Enter(r: Request) returns (verdict: Verdict)
      modifies this`active
      ensures (Value(), verdict) == Entered(old(Value()), r, max)
    {
      if r.wrongMethod { return Responded(405); }
      if r.routeFailure.Some? { return Responded(r.routeFailure.value); }
      if r.IsGet() && r.bodyFailure.Some? { return Responded(r.bodyFailure.value); }
      if r.route.Health? { return Responded(200); }
      if r.route.Ready? { return Responded(if ready then 200 else 503); }
      if !ready || stopping { return Responded(503); }
      if !r.IsGet() && r.headerFailure.Some? { return Responded(r.headerFailure.value); }
      if active >= max { return Responded(503); }
      active := active + 1;
      return Admitted;
    }

    /** Resolves every waiter and forgets them. */
    method WakeAll()
      modifies this`idleWaiters, this`resolved
      ensures resolved == old(resolved) + old(idleWaiters) && idleWaiters == {}
    {
      var left := idleWaiters;
      while left != {}
        invariant left <= idleWaiters == old(idleWaiters)
        invariant resolved == old(resolved) + (idleWaiters - left)
        decreases |left|
      {
        var w :| w in left;
        resolved := resolved + {w};
        left := left - {w};
      }
      idleWaiters := {};
    }

    /** The cleanup of a request that holds a slot: the last one out resolves every waiter. */
    method Leave()
      requires active > 0
      modifies this`active, this`idleWaiters, this`resolved
      ensures Value() == Left(old(Value()))
    {
      active := active - 1;
      if active == 0 { WakeAll(); }
    }
  }
}
