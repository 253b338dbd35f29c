/** What the limiter lets through when calls interleave (internal/engine/executor.go over
    internal/upstream/limiter.go). */
module Throttle {
  import opened Wrappers
  import opened Calls
  import B = Breaker
  import L = Limiter

  /** A step that asks the limiter: for its call's key, at its call's rate. */
  function AskOf(s: Sys, step: Step): Option<L.Call> {
    match step
    case AskLimiter(i, now) =>
      if i < |s.calls| then Some(L.Call(s.calls[i].key, s.calls[i].ratePerMin, now)) else None
    case _ => None
  }

  lemma NextLimiter(cfg: B.Settings, s: Sys, step: Step)
    requires Enabled(s, step)
    ensures var c, s' := AskOf(s, step), Next(cfg, s, step);
            if c.None? then s'.limiter == s.limiter
            else
              var (buckets, granted) := L.AllowResult(s.limiter, true, c.value.key, c.value.ratePerMin, c.value.now);
              s'.limiter == buckets && (s'.calls[step.i].place.Breaking? <==> granted)
              && (s'.calls[step.i].place.Done? <==> !granted)
  {
    hide B.AllowAll, B.RecordAll, L.AllowResult;
  }

  /** What the first n steps asked the limiter. */
  ghost function Asks(ss: seq<Sys>, steps: seq<Step>, n: nat): seq<L.Call>
    requires n <= |steps| < |ss|
  {
    if n == 0 then []
    else
      var c := AskOf(ss[n - 1], steps[n - 1]);
      Asks(ss, steps, n - 1) + if c.Some? then [c.value] else []
  }

  lemma {:induction false} LimiterIsItsAsks(cfg: B.Settings, ss: seq<Sys>, steps: seq<Step>, n: nat)
    requires Behaviour(cfg, ss, steps) && n <= |steps|
    ensures ss[n].limiter == L.BucketsAfter(Asks(ss, steps, n), true)
  {
    hide Next, Enabled, AskOf, L.AllowResult;
    if n > 0 {
      LimiterIsItsAsks(cfg, ss, steps, n - 1);
      assert Enabled(ss[n - 1], steps[n - 1]) && ss[n - 1 + 1] == Next(cfg, ss[n - 1], steps[n - 1]);
      NextLimiter(cfg, ss[n - 1], steps[n - 1]);
      var before, c := Asks(ss, steps, n - 1), AskOf(ss[n - 1], steps[n - 1]);
      if c.Some? {
        assert (before + [c.value])[..|before|] == before;
      } else {
        assert before + [] == before;
      }
    }
  }

  /** How many calls of an instance the limiter has let through since its ask number m. */
  ghost function LetThrough(ss: seq<Sys>, steps: seq<Step>, key: string, m: nat, n: nat): nat
    requires n <= |steps| < |ss|
  {
    if n == 0 then 0
    else
      var c := AskOf(ss[n - 1], steps[n - 1]);
      LetThrough(ss, steps, key, m, n - 1)
      + if c.Some? && L.Limits(c.value, key) && |Asks(ss, steps, n - 1)| >= m
           && steps[n - 1].i < |ss[n].calls| && ss[n].calls[steps[n - 1].i].place.Breaking?
        then 1 else 0
  }

  lemma OneMoreGrant(before: seq<L.Call>, c: L.Call, key: string, m: nat)
    ensures L.Grants(before + [c], key, m)
         == L.Grants(before, key, m) + if |before| >= m && L.Limits(c, key) && L.Answer(before, true, c) then 1 else 0
  {
    hide L.Answer, L.Limits;
    assert (before + [c])[..|before|] == before;
  }

  /** What one more step lets through, by the limiter's answer to it. */
  lemma LetThroughStep(cfg: B.Settings, ss: seq<Sys>, steps: seq<Step>, key: string, m: nat, n: nat)
    requires Behaviour(cfg, ss, steps) && 0 < n <= |steps|
    ensures var before, c := Asks(ss, steps, n - 1), AskOf(ss[n - 1], steps[n - 1]);
            LetThrough(ss, steps, key, m, n) == LetThrough(ss, steps, key, m, n - 1)
              + if c.Some? && |before| >= m && L.Limits(c.value, key) && L.Answer(before, true, c.value) then 1 else 0
  {
    hide Next, Enabled, AskOf, L.AllowResult, L.Limits, Asks;
    LimiterIsItsAsks(cfg, ss, steps, n - 1);
    assert Enabled(ss[n - 1], steps[n - 1]) && ss[n - 1 + 1] == Next(cfg, ss[n - 1], steps[n - 1]);
    NextLimiter(cfg, ss[n - 1], steps[n - 1]);
    AskedCallIsThere(cfg, ss[n - 1], steps[n - 1]);
  }

  lemma {:induction false} LetThroughIsGranted(cfg: B.Settings, ss: seq<Sys>, steps: seq<Step>, key: string, m: nat, n: nat)
    requires Behaviour(cfg, ss, steps) && n <= |steps|
    ensures LetThrough(ss, steps, key, m, n) == L.Grants(Asks(ss, steps, n), key, m)
  {
    hide AskOf, Next, Enabled, L.Answer, L.Limits, L.Grants, LetThrough;
    if n == 0 {
      NothingLetThrough(ss, steps, key, m);
    } else {
      LetThroughIsGranted(cfg, ss, steps, key, m, n - 1);
      LetThroughStep(cfg, ss, steps, key, m, n);
      var before, c := Asks(ss, steps, n - 1), AskOf(ss[n - 1], steps[n - 1]);
      if c.Some? {
        OneMoreGrant(before, c.value, key, m);
      } else {
        assert before + [] == before;
      }
    }
  }

  lemma NothingLetThrough(ss: seq<Sys>, steps: seq<Step>, key: string, m: nat)
    requires |steps| < |ss|
    ensures LetThrough(ss, steps, key, m, 0) == L.Grants([], key, m) == 0
  {
  }

  lemma AskedCallIsThere(cfg: B.Settings, s: Sys, step: Step)
    requires Enabled(s, step)
    ensures AskOf(s, step).Some? ==> step.AskLimiter? && step.i < |Next(cfg, s, step).calls|
  {
    hide L.AllowResult;
  }

  /** In every interleaving: from any ask of a limited instance on, at most its rate then
      and the refill at the rates then in force are let through. */
  lemma CallsWithinBudget(cfg: B.Settings, ss: seq<Sys>, steps: seq<Step>, key: string, m: nat, n: nat)
    requires Behaviour(cfg, ss, steps) && n <= |steps|
    requires m < |Asks(ss, steps, n)| && L.Limits(Asks(ss, steps, n)[m], key) && L.ClockRuns(Asks(ss, steps, n))
    ensures LetThrough(ss, steps, key, m, n) as real
         <= Asks(ss, steps, n)[m].ratePerMin as real + L.Refill(Asks(ss, steps, n), key, m)
  {
    LetThroughIsGranted(cfg, ss, steps, key, m, n);
    L.GrantsWithinBudget(Asks(ss, steps, n), key, m);
  }
}
