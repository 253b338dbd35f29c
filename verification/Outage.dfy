/** What upstream replies do to later calls: concurrent calls (internal/engine/executor.go)
    over the circuit breaker (internal/upstream/breaker.go). */
module Outage {
  import opened Wrappers
  import opened Calls
  import opened BreakerHistory
  import B = Breaker
  import L = Limiter

  // ---------------------------------------------------------------------
  // One reply
  // ---------------------------------------------------------------------

  /** What recording a reply does to the breaker.  No response, or one of 500 or above,
      is a failure: it adds one to the key's count, and opens a half-open circuit or one
      whose count reaches the threshold.  Any other response is a success: it closes a
      closed or open circuit with no failures, and takes a half-open one a success
      further.  No other key's entry changes. */
  lemma ReplyIsRecorded(cfg: B.Settings, s: Sys, i: nat, now: real)
    requires Enabled(s, RecordOutcome(i, now))
    ensures var key, reply := s.calls[i].key, s.calls[i].place.reply;
            var was, es := B.EntryOf(s.breaker, key), Next(cfg, s, RecordOutcome(i, now)).breaker;
            && (forall k :: k in es && k != key ==> k in s.breaker && es[k] == s.breaker[k])
            && (key in s.breaker ==> key in es)
            && (key in es ==>
                  var e := es[key];
                  && e.lastActivity == now
                  && (reply.Unreachable? || reply.code >= 500 ==>
                        && e.failures == was.failures + 1 && e.successes == 0
                        && (if was.phase.HalfOpen? || was.failures + 1 >= cfg.failureThreshold
                            then e.phase.Open? && e.openedAt == now else e.phase == was.phase))
                  && (reply.Status? && reply.code < 500 ==>
                        if !was.phase.HalfOpen? then e.phase.Closed? && e.failures == 0
                        else if was.successes + 1 >= cfg.halfOpenSuccesses then e.phase.Closed? && e.failures == e.successes == 0
                        else e.phase.HalfOpen? && e.successes == was.successes + 1 && e.failures == was.failures))
  {
    hide B.Idle;
  }

  /** What asking the breaker does: refuse while an open circuit is younger than
      OpenDuration, else let the call through, an older open circuit turning half-open. */
  lemma QuestionIsAnswered(cfg: B.Settings, s: Sys, i: nat, now: real)
    requires Enabled(s, AskBreaker(i, now))
    ensures var key := s.calls[i].key;
            var was, s' := B.EntryOf(s.breaker, key), Next(cfg, s, AskBreaker(i, now));
            var refused := was.phase.Open? && now - was.openedAt < cfg.openDuration;
            && s'.calls[i].place == (if refused then Done else Gating)
            && (forall k :: k in s'.breaker && k != key ==> k in s.breaker && s'.breaker[k] == s.breaker[k])
            && (key in s'.breaker ==>
                  var e := s'.breaker[key];
                  && e.failures == was.failures && e.openedAt == was.openedAt && e.lastActivity == now
                  && e.successes == (if was.phase.Open? && !refused then 0 else was.successes)
                  && e.phase == if was.phase.Open? && !refused then B.HalfOpen else was.phase)
  {
    hide B.Idle;
  }

  // ---------------------------------------------------------------------
  // An outage
  // ---------------------------------------------------------------------

  /** Step n records an outcome for key. */
  ghost predicate Records(ss: seq<Sys>, steps: seq<Step>, n: nat, key: string)
    requires n < |steps| < |ss|
  {
    && steps[n].RecordOutcome? && steps[n].i < |ss[n].calls| && ss[n].calls[steps[n].i].key == key
    && ss[n].calls[steps[n].i].place.Replied?
  }

  /** Step n records that the upstream did not answer, or answered 500 or above. */
  ghost predicate Fails(ss: seq<Sys>, steps: seq<Step>, n: nat, key: string)
    requires n < |steps| < |ss|
  {
    && Records(ss, steps, n, key)
    && var reply := ss[n].calls[steps[n].i].place.reply; reply.Unreachable? || reply.code >= 500
  }

  /** How many failures are recorded for key from step m up to step n. */
  ghost function Failures(ss: seq<Sys>, steps: seq<Step>, m: nat, n: nat, key: string): nat
    requires m <= n <= |steps| < |ss|
    decreases n
  {
    if n == m then 0 else Failures(ss, steps, m, n - 1, key) + if Fails(ss, steps, n - 1, key) then 1 else 0
  }

  ghost predicate Held(ss: seq<Sys>, m: nat, n: nat, key: string) {
    forall q :: m <= q <= n && q < |ss| ==> key in ss[q].breaker
  }

  lemma OtherStepsLeaveEntry(cfg: B.Settings, s: Sys, step: Step, key: string)
    requires Enabled(s, step) && key in s.breaker && key in Next(cfg, s, step).breaker
    requires step.AskBreaker? || step.RecordOutcome? ==> s.calls[step.i].key != key
    ensures Next(cfg, s, step).breaker[key] == s.breaker[key]
  {
    if step.AskBreaker? {
      hide Next;
      QuestionIsAnswered(cfg, s, step.i, step.now);
    } else if step.RecordOutcome? {
      hide Next;
      ReplyIsRecorded(cfg, s, step.i, step.now);
    }
  }

  lemma StepOf(cfg: B.Settings, ss: seq<Sys>, steps: seq<Step>, n: nat)
    requires Behaviour(cfg, ss, steps) && n < |steps|
    ensures Enabled(ss[n], steps[n]) && ss[n + 1] == Next(cfg, ss[n], steps[n])
  {
  }

  /** Without a success in between, the count is at least the failures recorded. */
  lemma {:induction false} FailuresAreCounted(cfg: B.Settings, ss: seq<Sys>, steps: seq<Step>, m: nat, n: nat, key: string)
    requires Behaviour(cfg, ss, steps) && m <= n <= |steps| && Held(ss, m, n, key)
    requires forall q :: m <= q < n && Records(ss, steps, q, key) ==> Fails(ss, steps, q, key)
    ensures ss[n].breaker[key].failures >= Failures(ss, steps, m, n, key)
    decreases n
  {
    hide Next, Enabled, B.EntryOf;
    if n > m {
      FailuresAreCounted(cfg, ss, steps, m, n - 1, key);
      StepOf(cfg, ss, steps, n - 1);
      RecordingIsEnabled(ss, steps, n - 1, key);
      CountStep(cfg, ss[n - 1], steps[n - 1], key);
    }
  }

  lemma RecordingIsEnabled(ss: seq<Sys>, steps: seq<Step>, n: nat, key: string)
    requires n < |steps| < |ss| && Enabled(ss[n], steps[n])
    ensures Records(ss, steps, n, key) <==> steps[n].RecordOutcome? && ss[n].calls[steps[n].i].key == key
    ensures Records(ss, steps, n, key) ==> ss[n].calls[steps[n].i].place.Replied?
  {
  }

  lemma CountStep(cfg: B.Settings, s: Sys, step: Step, key: string)
    requires Enabled(s, step) && key in s.breaker && key in Next(cfg, s, step).breaker
    ensures var fails := step.RecordOutcome? && s.calls[step.i].key == key
                         && (s.calls[step.i].place.reply.Unreachable? || s.calls[step.i].place.reply.code >= 500);
            var succeeds := step.RecordOutcome? && s.calls[step.i].key == key && !fails;
            !succeeds ==> Next(cfg, s, step).breaker[key].failures == s.breaker[key].failures + if fails then 1 else 0
  {
    hide Next;
    if step.RecordOutcome? && s.calls[step.i].key == key {
      ReplyIsRecorded(cfg, s, step.i, step.now);
    } else if step.AskBreaker? && s.calls[step.i].key == key {
      QuestionIsAnswered(cfg, s, step.i, step.now);
    } else {
      OtherStepsLeaveEntry(cfg, s, step, key);
    }
  }

  /** After the last recorded failure the circuit stays open, whoever asks, until
      OpenDuration has passed. */
  lemma {:induction false} StaysOpen(cfg: B.Settings, ss: seq<Sys>, steps: seq<Step>, p: nat, n: nat, key: string, t: real, now: real)
    requires Behaviour(cfg, ss, steps) && p <= n <= |steps| && Held(ss, p, n, key)
    requires ss[p].breaker[key].phase.Open? && ss[p].breaker[key].openedAt == t && now - t < cfg.openDuration
    requires forall q :: p <= q < n ==> !Records(ss, steps, q, key)
    requires forall q :: p <= q < n && steps[q].AskBreaker? ==> steps[q].now <= now
    ensures ss[n].breaker[key].phase.Open? && ss[n].breaker[key].openedAt == t
    decreases n
  {
    hide Next;
    if n > p {
      StaysOpen(cfg, ss, steps, p, n - 1, key, t, now);
      var s, step := ss[n - 1], steps[n - 1];
      StepOf(cfg, ss, steps, n - 1);
      assert !Records(ss, steps, n - 1, key);
      if step.AskBreaker? && s.calls[step.i].key == key {
        QuestionIsAnswered(cfg, s, step.i, step.now);
      } else {
        OtherStepsLeaveEntry(cfg, s, step, key);
      }
    }
  }

  /** In every interleaving: once as many replies as the threshold in a row were missing
      or 500 and above (steps m to p, the last at time t, with no success recorded since),
      the next call to ask within OpenDuration of the last one is shed, as long as the
      breaker kept the key's entry. */
  lemma OutageSheds(cfg: B.Settings, ss: seq<Sys>, steps: seq<Step>, m: nat, p: nat, n: nat, key: string)
    requires Behaviour(cfg, ss, steps) && m <= p < n < |steps| && Held(ss, m, n, key)
    requires Fails(ss, steps, p, key) && Failures(ss, steps, m, p + 1, key) >= cfg.failureThreshold
    requires forall q :: m <= q < n && Records(ss, steps, q, key) ==> q <= p && Fails(ss, steps, q, key)
    requires steps[n].AskBreaker? && ss[n].calls[steps[n].i].key == key
    requires steps[n].now - steps[p].now < cfg.openDuration
    requires forall q :: p < q < n && steps[q].AskBreaker? ==> steps[q].now <= steps[n].now
    ensures ss[n + 1].calls[steps[n].i].place.Done?
  {
    hide Next, Held;
    HeldWithin(ss, m, p, n, key);
    FailuresAreCounted(cfg, ss, steps, m, p, key);
    ReplyIsRecorded(cfg, ss[p], steps[p].i, steps[p].now);
    StaysOpen(cfg, ss, steps, p + 1, n, key, steps[p].now, steps[n].now);
    QuestionIsAnswered(cfg, ss[n], steps[n].i, steps[n].now);
  }

  lemma HeldWithin(ss: seq<Sys>, m: nat, p: nat, n: nat, key: string)
    requires Held(ss, m, n, key) && m <= p < n < |ss|
    ensures Held(ss, m, p, key) && Held(ss, p + 1, n, key)
    ensures key in ss[p].breaker && key in ss[p + 1].breaker && key in ss[n].breaker
  {
  }

  // ---------------------------------------------------------------------
  // Exactly when a call is shed
  // ---------------------------------------------------------------------

  /** What a step does to the breaker, if anything: a reply counts as a success when
      there is one and it is below 500. */
  function CallOf(s: Sys, step: Step): Option<B.Call> {
    match step
    case AskBreaker(i, now) => if i < |s.calls| then Some(B.Allow(s.calls[i].key, now)) else None
    case RecordOutcome(i, now) =>
      if i < |s.calls| && s.calls[i].place.Replied? then
        var reply := s.calls[i].place.reply;
        Some(B.Record(s.calls[i].key, reply.Status? && reply.code < 500, now))
      else None
    case ResetBreaker(key) => Some(B.Reset(key))
    case _ => None
  }

  lemma NextBreaker(cfg: B.Settings, s: Sys, step: Step)
    requires Enabled(s, step)
    ensures var c := CallOf(s, step);
            Next(cfg, s, step).breaker == if c.Some? then B.Apply(cfg, s.breaker, c.value) else s.breaker
  {
    hide B.AllowAll, B.RecordAll, L.AllowResult;
  }

  /** What the first n steps did to the breaker. */
  ghost function BreakerCalls(ss: seq<Sys>, steps: seq<Step>, n: nat): seq<B.Call>
    requires n <= |steps| < |ss|
  {
    if n == 0 then []
    else
      var c := CallOf(ss[n - 1], steps[n - 1]);
      BreakerCalls(ss, steps, n - 1) + if c.Some? then [c.value] else []
  }

  lemma {:induction false} BreakerIsItsCalls(cfg: B.Settings, ss: seq<Sys>, steps: seq<Step>, n: nat)
    requires Behaviour(cfg, ss, steps) && n <= |steps|
    ensures ss[n].breaker == B.EntriesAfter(cfg, BreakerCalls(ss, steps, n))
  {
    hide Next, Enabled, CallOf, B.Apply;
    if n > 0 {
      BreakerIsItsCalls(cfg, ss, steps, n - 1);
      StepOf(cfg, ss, steps, n - 1);
      NextBreaker(cfg, ss[n - 1], steps[n - 1]);
      var before, c := BreakerCalls(ss, steps, n - 1), CallOf(ss[n - 1], steps[n - 1]);
      if c.Some? {
        assert (before + [c.value])[..|before|] == before;
      } else {
        assert before + [] == before;
      }
    }
  }

  /** A call is shed exactly when the last outcome recorded for its key was a failure
      that left the circuit tripped, less than OpenDuration ago. */
  lemma ShedIff(cfg: B.Settings, ss: seq<Sys>, steps: seq<Step>, n: nat)
    requires Behaviour(cfg, ss, steps) && n < |steps| && steps[n].AskBreaker?
    requires steps[n].i < |ss[n].calls|
    requires ClockRuns(B.HistoryOf(cfg, BreakerCalls(ss, steps, n), ss[n].calls[steps[n].i].key), steps[n].now)
    ensures var h := B.HistoryOf(cfg, BreakerCalls(ss, steps, n), ss[n].calls[steps[n].i].key);
            ss[n + 1].calls[steps[n].i].place.Done?
            <==> LastFailed(h) && Tripped(cfg, h) && steps[n].now - LastTold(h).now < cfg.openDuration
  {
    hide Next, BreakerCalls, ClockRuns, B.HistoryOf, Tripped, LastFailed;
    var key := ss[n].calls[steps[n].i].key;
    BreakerIsItsCalls(cfg, ss, steps, n);
    B.EntryIsItsHistory(cfg, BreakerCalls(ss, steps, n), key);
    RefusesIff(cfg, B.HistoryOf(cfg, BreakerCalls(ss, steps, n), key), steps[n].now);
    QuestionIsAnswered(cfg, ss[n], steps[n].i, steps[n].now);
    AllowedIff(cfg, B.EntryOf(ss[n].breaker, key), steps[n].now);
  }

  lemma AllowedIff(cfg: B.Settings, e: B.Entry, now: real)
    ensures B.AllowEntry(cfg, e, now).1 <==> !(e.phase.Open? && now - e.openedAt < cfg.openDuration)
  {
  }
}
