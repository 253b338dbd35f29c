/** Execute (internal/engine/executor.go), step by step over the real limiter,
    breaker and gate: whatever the collaborators answer, one call is a legal
    sequence of the steps that module Calls interleaves. */
module Executor {
  import opened Wrappers
  import opened Calls
  import L = Limiter
  import B = Breaker

  // ---------------------------------------------------------------------
  // Sequences of steps
  // ---------------------------------------------------------------------

  ghost function After(cfg: B.Settings, s: Sys, steps: seq<Step>): Sys {
    if steps == [] then s
    else
      var before := After(cfg, s, steps[..|steps| - 1]);
      if Enabled(before, steps[|steps| - 1]) then Next(cfg, before, steps[|steps| - 1]) else before
  }

  ghost predicate Legal(cfg: B.Settings, s: Sys, steps: seq<Step>) {
    steps != [] ==>
      && Legal(cfg, s, steps[..|steps| - 1])
      && Enabled(After(cfg, s, steps[..|steps| - 1]), steps[|steps| - 1])
  }

  lemma Extend(cfg: B.Settings, s: Sys, steps: seq<Step>, step: Step)
    requires Legal(cfg, s, steps) && Enabled(After(cfg, s, steps), step)
    ensures Legal(cfg, s, steps + [step])
    ensures After(cfg, s, steps + [step]) == Next(cfg, After(cfg, s, steps), step)
  {
    hide Next, Enabled;
    assert (steps + [step])[..|steps|] == steps;
  }

  // ---------------------------------------------------------------------
  // The gate
  // ---------------------------------------------------------------------

  /** Semaphores are referred to by their position in chans. */
  class Gate {
    var sems: map<string, nat>
    var chans: seq<Chan>

    ghost predicate Valid()
      reads this
    {
      forall k :: k in sems ==> sems[k] < |chans|
    }

    constructor ()
      ensures Valid() && sems == map[] && chans == []
    {
      sems, chans := map[], [];
    }

    /** sem: the key's semaphore, replaced when its capacity is not max. */
    method Sem(key: string, max: nat) returns (sem: nat)
      requires Valid()
      modifies this
      ensures Valid() && sem < |chans| && chans[sem].cap == max
      ensures forall s: Sys :: s.sems == old(sems) && s.chans == old(chans) ==>
                SemFor(s, key, max) == (s.(sems := sems, chans := chans), sem)
    {
      if key in sems && chans[sems[key]].cap == max { return sems[key]; }
      sem := |chans|;
      chans := chans + [Chan(key, max, 0)];
      sems := sems[key := sem];
    }

    /** The select in Acquire: take a slot if one is free before the context is done. */
    method Enter(sem: nat, cancelled: bool) returns (entered: bool)
      requires Valid() && sem < |chans|
      modifies this
      ensures Valid() && sems == old(sems)
      ensures entered == (!cancelled && old(chans)[sem].used < old(chans)[sem].cap)
      ensures chans == if entered then old(chans)[sem := old(chans)[sem].(used := old(chans)[sem].used + 1)] else old(chans)
    {
      entered := !cancelled && chans[sem].used < chans[sem].cap;
      if entered {
        chans := chans[sem := chans[sem].(used := chans[sem].used + 1)];
      }
    }

    /** The release function Acquire returned. */
    method Leave(sem: nat)
      requires Valid() && sem < |chans| && chans[sem].used > 0
      modifies this
      ensures Valid() && sems == old(sems)
      ensures chans == old(chans)[sem := old(chans)[sem].(used := old(chans)[sem].used - 1)]
    {
      chans := chans[sem := chans[sem].(used := chans[sem].used - 1)];
    }
  }

  // ---------------------------------------------------------------------
  // Execute
  // ---------------------------------------------------------------------

  /** What the checks before the controls find. */
  datatype Check = Incomplete | NoBaseURL | BadArguments | Fine

  /** How a call ends, for its caller. */
  datatype Result =
    | Mapped | Internal | NotConfigured | InvalidArguments | RateLimited | CircuitOpen
    | NoSlot | NotBuilt | TransportFailed | MappingFailed

  class Engine {
    const limiter: L.MemoryLimiter
    const breaker: B.CircuitBreaker
    const gate: Gate

    constructor (limiter: L.MemoryLimiter, breaker: B.CircuitBreaker, gate: Gate)
      ensures this.limiter == limiter && this.breaker == breaker && this.gate == gate
    {
      this.limiter, this.breaker, this.gate := limiter, breaker, gate;
    }

    /** The shared state, with one call under way. */
    ghost function Shared(c: Call): Sys
      reads limiter, breaker, breaker.state.Values, gate
    {
      Sys(limiter.buckets, breaker.View(), gate.sems, gate.chans, [c])
    }

    /** The steps taken so far lead from s to the state at hand. */
    ghost predicate Reached(s: Sys, steps: seq<Step>, c: Call)
      reads limiter, breaker, breaker.state.Values, gate
    {
      Legal(breaker.cfg, s, steps) && After(breaker.cfg, s, steps) == Shared(c)
    }

    lemma Take(s: Sys, steps: seq<Step>, before: Sys, step: Step, c: Call)
      requires Legal(breaker.cfg, s, steps) && After(breaker.cfg, s, steps) == before
      requires Enabled(before, step) && Next(breaker.cfg, before, step) == Shared(c)
      ensures Reached(s, steps + [step], c)
    {
      hide Next, Enabled;
      Extend(breaker.cfg, s, steps, step);
    }

    /** Controls 1 and 2: arguments, rate limit. */
    method AskLimiter(ghost s: Sys, key: string, check: Check, ratePerMin: int, ghost maxConcurrent: int, t1: real)
      returns (refused: Result, ghost steps: seq<Step>, ghost c: Call)
      requires breaker.Valid() && s == Shared(NewCall(key, check.Fine?, ratePerMin, maxConcurrent))
      modifies limiter
      ensures Reached(s, steps, c)
      ensures var n := NewCall(key, check.Fine?, ratePerMin, maxConcurrent);
              match refused
              case RateLimited => check.Fine? && c == n.(place := Done, limiterAsks := 1)
              case Mapped => check.Fine? && c == n.(place := Breaking, limiterAsks := 1)
              case _ => refused == Refusal(check) && !check.Fine? && c == n.(place := Done)
    {
      hide L.AllowResult, After, Legal;
      NoSteps(breaker.cfg, s);
      steps, c := [], NewCall(key, check.Fine?, ratePerMin, maxConcurrent);
      ghost var before := Shared(c);
      c := c.(place := if check.Fine? then Limiting else Done);
      Take(s, steps, before, Validate(0), c);
      steps := steps + [Validate(0)];
      if !check.Fine? { return Refusal(check), steps, c; }

      before := Shared(c);
      var granted := limiter.Allow(key, ratePerMin, t1);
      c := c.(place := if granted then Breaking else Done, limiterAsks := 1);
      Take(s, steps, before, Step.AskLimiter(0, t1), c);
      return if granted then Mapped else RateLimited, steps + [Step.AskLimiter(0, t1)], c;
    }

    /** Control 3: circuit breaker. */
    method AskBreaker(ghost s: Sys, ghost steps0: seq<Step>, ghost c0: Call, key: string, t2: real)
      returns (admitted: bool, ghost steps: seq<Step>, ghost c: Call)
      requires breaker.Valid() && Reached(s, steps0, c0) && c0.place.Breaking? && c0.key == key && c0.breakerAsks == 0
      modifies breaker, breaker.state.Values
      ensures breaker.Valid() && Reached(s, steps, c) && fresh(breaker.state.Values - old(breaker.state.Values))
      ensures c == c0.(place := if admitted then Gating else Done, breakerAsks := 1)
    {
      hide B.AllowAll, After, Legal;
      ghost var before := Shared(c0);
      admitted := breaker.Allow(key, t2);
      c := c0.(place := if admitted then Gating else Done, breakerAsks := 1);
      Take(s, steps0, before, Step.AskBreaker(0, t2), c);
      steps := steps0 + [Step.AskBreaker(0, t2)];
    }

    /** Control 4, first half: the key's semaphore, if it has a limit. */
    method FindSemaphore(ghost s: Sys, ghost steps0: seq<Step>, ghost c0: Call, key: string, maxConcurrent: int)
      returns (sem: Option<nat>, ghost steps: seq<Step>, ghost c: Call)
      requires breaker.Valid() && gate.Valid() && Reached(s, steps0, c0)
      requires c0.place.Gating? && c0.key == key && c0.maxConcurrent == maxConcurrent
      modifies gate
      ensures breaker.Valid() && gate.Valid() && Reached(s, steps, c)
      ensures sem.Some? <==> maxConcurrent > 0
      ensures sem.Some? ==> sem.value < |gate.chans|
      ensures c == c0.(place := if sem.None? then Building else Waiting(sem.value))
    {
      hide After, Legal, SemFor;
      steps := steps0 + [FindSem(0)];
      ghost var before := Shared(c0);
      if maxConcurrent <= 0 {
        c := c0.(place := Building);
        Take(s, steps0, before, FindSem(0), c);
        return None, steps, c;
      }
      var id := gate.Sem(key, maxConcurrent);
      c := c0.(place := Waiting(id));
      Take(s, steps0, before, FindSem(0), c);
      return Some(id), steps, c;
    }

    /** Control 4, second half: wait for a slot, or for the context to be done. */
    method TakeSlot(ghost s: Sys, ghost steps0: seq<Step>, ghost c0: Call, sem: nat, cancelled: bool)
      returns (entered: bool, ghost steps: seq<Step>, ghost c: Call)
      requires breaker.Valid() && gate.Valid() && Reached(s, steps0, c0) && c0.place == Waiting(sem) && sem < |gate.chans|
      modifies gate
      ensures breaker.Valid() && gate.Valid() && Reached(s, steps, c)
      ensures entered ==> sem < |gate.chans| && gate.chans[sem].used > 0
      ensures c == if entered then c0.(place := Building, slot := Some(sem), acquires := c0.acquires + 1)
                   else c0.(place := Done)
    {
      hide After, Legal;
      ghost var before := Shared(c0);
      entered := gate.Enter(sem, cancelled);
      if !entered {
        c := c0.(place := Done);
        Take(s, steps0, before, GiveUp(0), c);
        return false, steps0 + [GiveUp(0)], c;
      }
      c := c0.(place := Building, slot := Some(sem), acquires := c0.acquires + 1);
      Take(s, steps0, before, Enter(0), c);
      steps := steps0 + [Enter(0)];
    }

    /** Building, sending and receiving touch nothing that calls share. */
    lemma Fly(s: Sys, steps0: seq<Step>, c0: Call, reply: Reply) returns (steps: seq<Step>, c: Call)
      requires Reached(s, steps0, c0) && c0.place.Building? && c0.sends == 0
      ensures Reached(s, steps, c) && c == c0.(place := Replied(reply), sends := 1)
    {
      hide After, Legal;
      var c1, c2 := c0.(place := Calling), c0.(place := InFlight, sends := 1);
      c := c0.(place := Replied(reply), sends := 1);
      Take(s, steps0, Shared(c0), Build(0, true), c1);
      Take(s, steps0 + [Build(0, true)], Shared(c1), Send(0), c2);
      Take(s, steps0 + [Build(0, true)] + [Send(0)], Shared(c2), Receive(0, reply), c);
      steps := steps0 + [Build(0, true)] + [Send(0)] + [Receive(0, reply)];
    }

    /** Controls 5 to 7: build the request, send it, record how it went. */
    method Transact(ghost s: Sys, ghost steps0: seq<Step>, ghost c0: Call, key: string,
                    built: bool, reply: Reply, mapped: bool, t3: real)
      returns (r: Result, ghost steps: seq<Step>, ghost c: Call)
      requires breaker.Valid() && Reached(s, steps0, c0) && c0.place.Building? && c0.key == key && c0.sends == c0.records == 0
      modifies breaker, breaker.state.Values
      ensures breaker.Valid() && Reached(s, steps, c)
      ensures r == if !built then NotBuilt else if reply.Unreachable? then TransportFailed
                   else if mapped then Mapped else MappingFailed
      ensures c == if built then c0.(place := Leaving, sends := 1, records := 1) else c0.(place := Leaving)
    {
      hide B.RecordAll, After, Legal;
      if !built {
        c := c0.(place := Leaving);
        Take(s, steps0, Shared(c0), Build(0, false), c);
        return NotBuilt, steps0 + [Build(0, false)], c;
      }
      steps, c := Fly(s, steps0, c0, reply);
      ghost var before := Shared(c);
      breaker.Record(key, Healthy(reply), t3);
      c := c.(place := Leaving, records := 1);
      Take(s, steps, before, RecordOutcome(0, t3), c);
      steps := steps + [RecordOutcome(0, t3)];
      r := if reply.Unreachable? then TransportFailed else if mapped then Mapped else MappingFailed;
    }

    /** The deferred release. */
    method Release(ghost s: Sys, ghost steps0: seq<Step>, ghost c0: Call, slot: Option<nat>)
      returns (ghost steps: seq<Step>, ghost c: Call)
      requires breaker.Valid() && gate.Valid() && Reached(s, steps0, c0) && c0.place.Leaving? && c0.slot == slot
      requires slot.Some? ==> slot.value < |gate.chans| && gate.chans[slot.value].used > 0
      modifies gate
      ensures breaker.Valid() && gate.Valid() && Reached(s, steps, c)
      ensures c == c0.(place := Done, slot := None, releases := c0.releases + if slot.Some? then 1 else 0)
    {
      hide After, Legal;
      steps, c := steps0, c0;
      ghost var before := Shared(c);
      if slot.Some? {
        gate.Leave(slot.value);
        c := c.(place := Done, slot := None, releases := c.releases + 1);
      } else {
        c := c.(place := Done);
      }
      Take(s, steps, before, Leave(0), c);
      steps := steps + [Leave(0)];
    }

    /** check, cancelled, built, reply and mapped are what the request and the
        upstream turn out to be; t1, t2 and t3 are what the clock says.  The call is
        finished by legal steps that lead to exactly the state it leaves. */
    method Execute(key: string, check: Check, ratePerMin: int, maxConcurrent: int,
                   cancelled: bool, built: bool, reply: Reply, mapped: bool, t1: real, t2: real, t3: real)
      returns (r: Result, ghost steps: seq<Step>, ghost c: Call)
      requires breaker.Valid() && gate.Valid()
      modifies limiter, breaker, breaker.state.Values, gate
      ensures breaker.Valid() && gate.Valid()
      ensures Reached(old(Shared(NewCall(key, check.Fine?, ratePerMin, maxConcurrent))), steps, c) && c.place.Done?
      ensures match r
              case RateLimited => check.Fine? && c.limiterAsks == 1 && c.breakerAsks == 0
              case CircuitOpen => check.Fine? && c.breakerAsks == 1 && c.sends == c.acquires == 0
              case NoSlot => maxConcurrent > 0 && c.breakerAsks == 1 && c.sends == c.acquires == 0
              case NotBuilt => !built && c.breakerAsks == 1 && c.sends == 0
              case TransportFailed => reply.Unreachable? && c.sends == c.records == 1
              case MappingFailed => reply.Status? && !mapped && c.sends == c.records == 1
              case Mapped => reply.Status? && mapped && c.sends == c.records == 1
              case _ => r == Refusal(check) && !check.Fine? && c.limiterAsks == c.breakerAsks == c.sends == 0
      ensures c.releases == c.acquires
      ensures check.Incomplete? ==> r.Internal?
      ensures check.NoBaseURL? ==> r.NotConfigured?
      ensures check.BadArguments? ==> r.InvalidArguments?
    {
      hide Reached;
      ghost var s := Shared(NewCall(key, check.Fine?, ratePerMin, maxConcurrent));
      r, steps, c := AskLimiter(s, key, check, ratePerMin, maxConcurrent, t1);
      if r != Mapped { return; }
      var admitted;
      admitted, steps, c := AskBreaker(s, steps, c, key, t2);
      if !admitted { return CircuitOpen, steps, c; }
      var sem;
      sem, steps, c := FindSemaphore(s, steps, c, key, maxConcurrent);
      if sem.Some? {
        var entered;
        entered, steps, c := TakeSlot(s, steps, c, sem.value, cancelled);
        if !entered { return NoSlot, steps, c; }
      }
      r, steps, c := Transact(s, steps, c, key, built, reply, mapped, t3);
      steps, c := Release(s, steps, c, sem);
    }
  }

  function Refusal(check: Check): Result {
    match check
    case Incomplete => Internal
    case NoBaseURL => NotConfigured
    case BadArguments => InvalidArguments
    case Fine => Mapped
  }

  lemma NoSteps(cfg: B.Settings, s: Sys)
    ensures Legal(cfg, s, []) && After(cfg, s, []) == s
  {
  }
}
