/** Concurrent tool calls through Execute (internal/engine/executor.go) and the
    concurrency gate (internal/upstream/limiter.go).  Each step below is one
    critical section, channel operation or client call of the program; any number of
    calls interleave in any order. */
module Calls {
  import opened Wrappers
  import L = Limiter
  import B = Breaker

  /** A semaphore: a buffered channel of a capacity, made for a key. */
  datatype Chan = Chan(key: string, cap: nat, used: nat)

  /** How a request ended: a transport error, or a response with a status. */
  datatype Reply = Unreachable | Status(code: int)

  /** Where a call is.  Waiting holds the semaphore it is trying to enter. */
  datatype Place =
    | Validating | Limiting | Breaking | Gating | Waiting(sem: nat)
    | Building | Calling | InFlight | Replied(reply: Reply) | Leaving | Done

  /** One call: its target and what it has done so far. */
  datatype Call = Call(
    key: string, valid: bool, ratePerMin: int, maxConcurrent: int,
    place: Place, slot: Option<nat>,
    limiterAsks: nat, breakerAsks: nat, sends: nat, records: nat, acquires: nat, releases: nat)

  function NewCall(key: string, valid: bool, ratePerMin: int, maxConcurrent: int): Call {
    Call(key, valid, ratePerMin, maxConcurrent, Validating, None, 0, 0, 0, 0, 0, 0)
  }

  /** Everything the calls share. */
  datatype Sys = Sys(
    limiter: L.Buckets, breaker: B.Entries,
    sems: map<string, nat>, chans: seq<Chan>, calls: seq<Call>)

  const INIT := Sys(map[], map[], map[], [], [])

  datatype Step =
    | Arrive(key: string, valid: bool, ratePerMin: int, maxConcurrent: int)
    | Validate(i: nat)
    | AskLimiter(i: nat, now: real)
    | AskBreaker(i: nat, now: real)
    | FindSem(i: nat)
    | Enter(i: nat)
    | GiveUp(i: nat)
    | Build(i: nat, ok: bool)
    | Send(i: nat)
    | Receive(i: nat, reply: Reply)
    | RecordOutcome(i: nat, now: real)
    | Leave(i: nat)
    | ResetBreaker(key: string)
    | Forget(key: string)

  predicate At(s: Sys, i: nat, p: Place) {
    i < |s.calls| && s.calls[i].place == p
  }

  predicate Enabled(s: Sys, step: Step) {
    match step
    case Arrive(_, _, _, _) => true
    case Validate(i) => At(s, i, Validating)
    case AskLimiter(i, _) => At(s, i, Limiting)
    case AskBreaker(i, _) => At(s, i, Breaking)
    case FindSem(i) => At(s, i, Gating)
    case Enter(i) =>
      && i < |s.calls| && s.calls[i].place.Waiting?
      && var ch := s.calls[i].place.sem; ch < |s.chans| && s.chans[ch].used < s.chans[ch].cap
    case GiveUp(i) => i < |s.calls| && s.calls[i].place.Waiting?
    case Build(i, _) => At(s, i, Building)
    case Send(i) => At(s, i, Calling)
    case Receive(i, _) => At(s, i, InFlight)
    case RecordOutcome(i, _) => i < |s.calls| && s.calls[i].place.Replied?
    case Leave(i) => At(s, i, Leaving) && (s.calls[i].slot.Some? ==> s.calls[i].slot.value < |s.chans|)
    case ResetBreaker(_) => true
    case Forget(_) => true
  }

  /** The replies recorded as a success: any response below 500, client errors included. */
  predicate Healthy(r: Reply) {
    r.Status? && r.code < 500
  }

  function With(s: Sys, i: nat, c: Call): Sys
    requires i < |s.calls|
  {
    s.(calls := s.calls[i := c])
  }

  /** Gate.sem: the key's semaphore, replaced when the limit is not its capacity. */
  function SemFor(s: Sys, key: string, max: nat): (r: (Sys, nat))
    ensures r.1 < |r.0.chans|
  {
    if key in s.sems && s.sems[key] < |s.chans| && s.chans[s.sems[key]].cap == max then (s, s.sems[key])
    else (s.(chans := s.chans + [Chan(key, max, 0)], sems := s.sems[key := |s.chans|]), |s.chans|)
  }

  function Next(cfg: B.Settings, s: Sys, step: Step): Sys
    requires Enabled(s, step)
  {
    match step
    case Arrive(key, valid, rate, max) => s.(calls := s.calls + [NewCall(key, valid, rate, max)])
    case Validate(i) =>
      var c := s.calls[i];
      With(s, i, c.(place := if c.valid then Limiting else Done))
    case AskLimiter(i, now) =>
      var c := s.calls[i];
      var (buckets, granted) := L.AllowResult(s.limiter, true, c.key, c.ratePerMin, now);
      With(s.(limiter := buckets), i,
           c.(place := if granted then Breaking else Done, limiterAsks := c.limiterAsks + 1))
    case AskBreaker(i, now) =>
      var c := s.calls[i];
      var (entries, admitted) := B.AllowAll(cfg, s.breaker, c.key, now);
      With(s.(breaker := entries), i,
           c.(place := if admitted then Gating else Done, breakerAsks := c.breakerAsks + 1))
    case FindSem(i) =>
      var c := s.calls[i];
      if c.maxConcurrent <= 0 then With(s, i, c.(place := Building))
      else
        var (s', sem) := SemFor(s, c.key, c.maxConcurrent);
        With(s', i, c.(place := Waiting(sem)))
    case Enter(i) =>
      var c := s.calls[i];
      var ch := c.place.sem;
      With(s.(chans := s.chans[ch := s.chans[ch].(used := s.chans[ch].used + 1)]), i,
           c.(place := Building, slot := Some(ch), acquires := c.acquires + 1))
    case GiveUp(i) => With(s, i, s.calls[i].(place := Done))
    case Build(i, ok) => With(s, i, s.calls[i].(place := if ok then Calling else Leaving))
    case Send(i) => With(s, i, s.calls[i].(place := InFlight, sends := s.calls[i].sends + 1))
    case Receive(i, reply) => With(s, i, s.calls[i].(place := Replied(reply)))
    case RecordOutcome(i, now) =>
      var c := s.calls[i];
      With(s.(breaker := B.RecordAll(cfg, s.breaker, c.key, Healthy(c.place.reply), now)), i,
           c.(place := Leaving, records := c.records + 1))
    case Leave(i) =>
      var c := s.calls[i];
      if c.slot.None? then With(s, i, c.(place := Done))
      else
        var ch := c.slot.value;
        With(s.(chans := s.chans[ch := s.chans[ch].(used := if s.chans[ch].used > 0 then s.chans[ch].used - 1 else 0)]), i,
             c.(place := Done, slot := None, releases := c.releases + 1))
    case ResetBreaker(key) => s.(breaker := s.breaker - {key})
    case Forget(key) => s.(sems := s.sems - {key})
  }

  // ---------------------------------------------------------------------
  // What every step keeps
  // ---------------------------------------------------------------------

  /** How far a call is through the controls. */
  function Stage(p: Place): nat {
    match p
    case Validating => 0
    case Limiting => 1
    case Breaking => 2
    case Gating => 3
    case Waiting(_) => 4
    case Building => 5
    case Calling => 6
    case InFlight => 7
    case Replied(_) => 8
    case Leaving => 9
    case Done => 10
  }

  /** The discipline of one call, place by place. */
  ghost predicate Disciplined(c: Call) {
    && c.limiterAsks <= 1 && c.breakerAsks <= c.limiterAsks && c.sends <= c.breakerAsks
    && c.records <= c.sends && c.acquires <= c.breakerAsks && c.releases <= c.acquires
    && (!c.valid ==> c.limiterAsks == 0 && (c.place.Validating? || c.place.Done?))
    && (c.slot.Some? ==> c.acquires == c.releases + 1)
    && (c.slot.None? ==> c.acquires == c.releases)
    && (Stage(c.place) <= 1 ==> c.limiterAsks == 0)
    && (Stage(c.place) == 2 ==> c.limiterAsks == 1 && c.breakerAsks == 0)
    && (3 <= Stage(c.place) <= 9 ==> c.limiterAsks == 1 && c.breakerAsks == 1)
    && (Stage(c.place) <= 4 ==> c.acquires == 0)
    && (Stage(c.place) <= 6 ==> c.sends == 0)
    && (7 <= Stage(c.place) <= 8 ==> c.sends == 1 && c.records == 0)
    && (Stage(c.place) >= 9 ==> c.records == c.sends)
    && (c.place.Done? ==> c.slot.None?)
    && (5 <= Stage(c.place) <= 9 && c.maxConcurrent > 0 ==> c.slot.Some?)
  }

  /** The semaphore a call holds or waits for was made for its key and its limit. */
  ghost predicate Fits(chans: seq<Chan>, c: Call, ch: nat) {
    ch < |chans| && chans[ch].key == c.key && chans[ch].cap == c.maxConcurrent
  }

  ghost predicate CallOk(chans: seq<Chan>, c: Call) {
    && Disciplined(c)
    && (c.slot.Some? ==> Fits(chans, c, c.slot.value))
    && (c.place.Waiting? ==> Fits(chans, c, c.place.sem))
  }

  /** How many calls hold a slot of a semaphore. */
  function Holders(calls: seq<Call>, ch: nat): nat {
    if calls == [] then 0
    else Holders(calls[..|calls| - 1], ch) + if calls[|calls| - 1].slot == Some(ch) then 1 else 0
  }

  ghost predicate Inv(s: Sys) {
    && (forall k :: k in s.sems ==> s.sems[k] < |s.chans| && s.chans[s.sems[k]].key == k)
    && (forall i :: 0 <= i < |s.calls| ==> CallOk(s.chans, s.calls[i]))
    && (forall ch :: 0 <= ch < |s.chans| ==>
          s.chans[ch].used == Holders(s.calls, ch) && s.chans[ch].used <= s.chans[ch].cap)
  }

  lemma {:induction false} HoldersUpdate(calls: seq<Call>, i: nat, c: Call, ch: nat)
    requires i < |calls|
    ensures Holders(calls[i := c], ch) + (if calls[i].slot == Some(ch) then 1 else 0)
         == Holders(calls, ch) + (if c.slot == Some(ch) then 1 else 0)
    decreases |calls|
  {
    var n := |calls| - 1;
    if i == n {
      assert calls[i := c][..n] == calls[..n];
    } else {
      assert calls[i := c][..n] == calls[..n][i := c];
      HoldersUpdate(calls[..n], i, c, ch);
    }
  }

  lemma {:induction false} NoHolders(calls: seq<Call>, ch: nat)
    requires forall i :: 0 <= i < |calls| ==> calls[i].slot != Some(ch)
    ensures Holders(calls, ch) == 0
  {
    if calls != [] { NoHolders(calls[..|calls| - 1], ch); }
  }

  /** A step that changes one call without touching slots or semaphores. */
  lemma InvCallOnly(s: Sys, s': Sys, i: nat, c: Call)
    requires Inv(s) && i < |s.calls| && CallOk(s.chans, c) && c.slot == s.calls[i].slot
    requires s'.sems == s.sems && s'.chans == s.chans && s'.calls == s.calls[i := c]
    ensures Inv(s')
  {
    hide CallOk, Holders;
    forall ch | 0 <= ch < |s.chans| ensures Holders(s'.calls, ch) == Holders(s.calls, ch) {
      HoldersUpdate(s.calls, i, c, ch);
    }
  }

  /** A step that takes or gives back a slot of one semaphore. */
  lemma InvSlot(s: Sys, s': Sys, i: nat, c: Call, ch: nat, used: nat)
    requires Inv(s) && i < |s.calls| && CallOk(s.chans, c) && ch < |s.chans| && used <= s.chans[ch].cap
    requires s'.sems == s.sems && s'.calls == s.calls[i := c]
    requires s'.chans == s.chans[ch := s.chans[ch].(used := used)]
    requires (s.calls[i].slot == None && c.slot == Some(ch) && used == s.chans[ch].used + 1)
             || (s.calls[i].slot == Some(ch) && c.slot == None && used + 1 == s.chans[ch].used)
    ensures Inv(s')
  {
    hide Disciplined, Holders;
    forall x | 0 <= x < |s.chans|
      ensures s'.chans[x].used == Holders(s'.calls, x) && s'.chans[x].used <= s'.chans[x].cap
    {
      HoldersUpdate(s.calls, i, c, x);
    }
    forall j | 0 <= j < |s'.calls| ensures CallOk(s'.chans, s'.calls[j]) {
      assert CallOk(s.chans, if j == i then c else s.calls[j]);
    }
  }

  lemma InvNewSem(s: Sys, key: string, max: nat)
    requires Inv(s)
    ensures var (s', sem) := SemFor(s, key, max);
            && Inv(s') && s'.calls == s.calls && s'.chans[sem].key == key && s'.chans[sem].cap == max
  {
    hide Disciplined, Holders;
    var (s', sem) := SemFor(s, key, max);
    forall j | 0 <= j < |s.calls| ensures CallOk(s'.chans, s.calls[j]) && s.calls[j].slot != Some(|s.chans|) {
      assert CallOk(s.chans, s.calls[j]);
    }
    NoHolders(s.calls, |s.chans|);
  }

  lemma InvArrive(s: Sys, c: Call)
    requires Inv(s) && c == NewCall(c.key, c.valid, c.ratePerMin, c.maxConcurrent)
    ensures Inv(s.(calls := s.calls + [c]))
  {
    var calls := s.calls + [c];
    assert calls[..|s.calls|] == s.calls;
    forall j | 0 <= j < |calls| ensures CallOk(s.chans, calls[j]) {
      if j < |s.calls| { assert CallOk(s.chans, s.calls[j]); }
    }
  }

  lemma HolderCounts(calls: seq<Call>, i: nat, ch: nat)
    requires i < |calls| && calls[i].slot == Some(ch)
    ensures Holders(calls, ch) >= 1
  {
    HoldersUpdate(calls, i, calls[i].(slot := None), ch);
  }

  predicate Quiet(step: Step) {
    step.Validate? || step.AskLimiter? || step.AskBreaker? || step.GiveUp?
    || step.Build? || step.Send? || step.Receive? || step.RecordOutcome?
  }

  lemma QuietCall(cfg: B.Settings, s: Sys, step: Step)
    requires Inv(s) && Enabled(s, step) && Quiet(step)
    ensures var s' := Next(cfg, s, step);
            && s'.sems == s.sems && s'.chans == s.chans
            && exists c :: s'.calls == s.calls[step.i := c] && CallOk(s.chans, c) && c.slot == s.calls[step.i].slot
  {
    hide Next, CallOk, Holders;
    assert CallOk(s.chans, s.calls[step.i]);
    QuietMove(cfg, s, step);
    QuietIsDisciplined(cfg, s, step);
  }

  lemma QuietMove(cfg: B.Settings, s: Sys, step: Step)
    requires Enabled(s, step) && Quiet(step)
    ensures var s' := Next(cfg, s, step);
            && s'.sems == s.sems && s'.chans == s.chans && |s'.calls| == |s.calls|
            && s'.calls == s.calls[step.i := s'.calls[step.i]] && s'.calls[step.i].slot == s.calls[step.i].slot
            && s'.calls[step.i].key == s.calls[step.i].key && s'.calls[step.i].maxConcurrent == s.calls[step.i].maxConcurrent
  {
    hide L.AllowResult, B.AllowAll, B.RecordAll;
  }

  lemma QuietIsDisciplined(cfg: B.Settings, s: Sys, step: Step)
    requires Enabled(s, step) && Quiet(step) && CallOk(s.chans, s.calls[step.i])
    requires |Next(cfg, s, step).calls| == |s.calls|
    ensures CallOk(s.chans, Next(cfg, s, step).calls[step.i])
  {
    hide L.AllowResult, B.AllowAll, B.RecordAll, Healthy;
  }

  lemma FindSemKeepsInv(cfg: B.Settings, s: Sys, i: nat)
    requires Inv(s) && Enabled(s, FindSem(i))
    ensures Inv(Next(cfg, s, FindSem(i)))
  {
    hide Holders, SemFor;
    var c, s' := s.calls[i], Next(cfg, s, FindSem(i));
    if c.maxConcurrent <= 0 {
      InvCallOnly(s, s', i, s'.calls[i]);
    } else {
      InvNewSem(s, c.key, c.maxConcurrent);
      var (t, sem) := SemFor(s, c.key, c.maxConcurrent);
      assert CallOk(t.chans, c);
      InvCallOnly(t, s', i, s'.calls[i]);
    }
  }

  lemma EnterKeepsInv(cfg: B.Settings, s: Sys, i: nat)
    requires Inv(s) && Enabled(s, Enter(i))
    ensures Inv(Next(cfg, s, Enter(i)))
  {
    hide Holders;
    var ch, s' := s.calls[i].place.sem, Next(cfg, s, Enter(i));
    assert CallOk(s.chans, s.calls[i]);
    InvSlot(s, s', i, s'.calls[i], ch, s.chans[ch].used + 1);
  }

  lemma LeaveKeepsInv(cfg: B.Settings, s: Sys, i: nat)
    requires Inv(s) && Enabled(s, Leave(i))
    ensures Inv(Next(cfg, s, Leave(i)))
  {
    hide Holders;
    var s' := Next(cfg, s, Leave(i));
    assert CallOk(s.chans, s.calls[i]);
    if s.calls[i].slot.None? {
      InvCallOnly(s, s', i, s'.calls[i]);
    } else {
      var ch := s.calls[i].slot.value;
      HolderCounts(s.calls, i, ch);
      InvSlot(s, s', i, s'.calls[i], ch, s.chans[ch].used - 1);
    }
  }

  lemma ForgetKeepsInv(s: Sys, key: string)
    requires Inv(s)
    ensures Inv(s.(sems := s.sems - {key})) && Inv(s.(breaker := s.breaker - {key}))
  {
    hide CallOk, Holders;
  }

  /** Every step, of any call, keeps every call disciplined and every semaphore's
      count equal to the number of its holders, within its capacity. */
  lemma StepKeepsInv(cfg: B.Settings, s: Sys, step: Step)
    requires Inv(s) && Enabled(s, step)
    ensures Inv(Next(cfg, s, step))
  {
    hide Inv;
    match step
    case Arrive(key, valid, rate, max) => InvArrive(s, NewCall(key, valid, rate, max));
    case ResetBreaker(key) => ForgetKeepsInv(s, key);
    case Forget(key) => ForgetKeepsInv(s, key);
    case FindSem(i) => FindSemKeepsInv(cfg, s, i);
    case Enter(i) => EnterKeepsInv(cfg, s, i);
    case Leave(i) => LeaveKeepsInv(cfg, s, i);
    case _ =>
      QuietCall(cfg, s, step);
      var s' := Next(cfg, s, step);
      var c :| s'.calls == s.calls[step.i := c] && CallOk(s.chans, c) && c.slot == s.calls[step.i].slot;
      InvCallOnly(s, s', step.i, c);
  }

  // ---------------------------------------------------------------------
  // Every interleaving
  // ---------------------------------------------------------------------

  /** A behaviour: any sequence of enabled steps of any calls, from nothing. */
  ghost predicate Behaviour(cfg: B.Settings, ss: seq<Sys>, steps: seq<Step>) {
    && |ss| == |steps| + 1 && ss[0] == INIT
    && forall n :: 0 <= n < |steps| ==> Enabled(ss[n], steps[n]) && ss[n + 1] == Next(cfg, ss[n], steps[n])
  }

  lemma {:induction false} InvForever(cfg: B.Settings, ss: seq<Sys>, steps: seq<Step>, n: nat)
    requires Behaviour(cfg, ss, steps) && n < |ss|
    ensures Inv(ss[n])
  {
    hide Next, CallOk;
    if n > 0 {
      InvForever(cfg, ss, steps, n - 1);
      StepKeepsInv(cfg, ss[n - 1], steps[n - 1]);
    }
  }

  /** In every interleaving: an invalid call asks neither the limiter nor the breaker
      and is never sent; no call is sent or recorded twice, nothing is recorded that
      was not sent; and a finished call has recorded exactly once if it was sent and
      has given back exactly the slot it took. */
  lemma CallsAreDisciplined(cfg: B.Settings, ss: seq<Sys>, steps: seq<Step>, n: nat, i: nat)
    requires Behaviour(cfg, ss, steps) && n < |ss| && i < |ss[n].calls|
    ensures var c := ss[n].calls[i];
            && (!c.valid ==> c.limiterAsks == c.breakerAsks == c.sends == c.records == c.acquires == 0)
            && c.limiterAsks <= 1 && c.breakerAsks <= 1 && c.records <= c.sends <= 1
            && c.releases <= c.acquires <= 1
            && (c.place.Done? ==> c.records == c.sends && c.releases == c.acquires && c.slot.None?)
  {
    InvForever(cfg, ss, steps, n);
    assert CallOk(ss[n].chans, ss[n].calls[i]);
  }

  predicate Flying(c: Call, ch: nat) {
    c.place.InFlight? && c.slot == Some(ch)
  }

  function InFlightCount(calls: seq<Call>, ch: nat): nat {
    if calls == [] then 0
    else InFlightCount(calls[..|calls| - 1], ch) + if Flying(calls[|calls| - 1], ch) then 1 else 0
  }

  lemma {:induction false} FlyingHold(calls: seq<Call>, ch: nat)
    ensures InFlightCount(calls, ch) <= Holders(calls, ch)
  {
    if calls != [] { FlyingHold(calls[..|calls| - 1], ch); }
  }

  /** In every interleaving, whatever limits change, the calls in flight under one
      semaphore never exceed the limit it was made for. */
  lemma InFlightWithinCapacity(cfg: B.Settings, ss: seq<Sys>, steps: seq<Step>, n: nat, ch: nat)
    requires Behaviour(cfg, ss, steps) && n < |ss| && ch < |ss[n].chans|
    ensures InFlightCount(ss[n].calls, ch) <= ss[n].chans[ch].cap
  {
    InvForever(cfg, ss, steps, n);
    FlyingHold(ss[n].calls, ch);
  }

  // ---------------------------------------------------------------------
  // A fixed limit
  // ---------------------------------------------------------------------

  /** The instance's limit is always max, and it is never forgotten. */
  ghost predicate FixedLimit(steps: seq<Step>, key: string, max: nat) {
    forall n :: 0 <= n < |steps| ==>
      && (steps[n].Arrive? && steps[n].key == key ==> steps[n].maxConcurrent == max)
      && steps[n] != Forget(key)
  }

  /** There is only ever one semaphore for the key. */
  ghost predicate OneSem(s: Sys, key: string, max: nat) {
    && (forall i :: 0 <= i < |s.calls| && s.calls[i].key == key ==> s.calls[i].maxConcurrent == max)
    && (forall ch :: 0 <= ch < |s.chans| && s.chans[ch].key == key ==> key in s.sems && s.sems[key] == ch && s.chans[ch].cap == max)
  }

  /** s' has the calls and semaphores of s, perhaps further on. */
  ghost predicate SameShape(s: Sys, s': Sys) {
    && |s'.calls| == |s.calls| && |s'.chans| == |s.chans|
    && (forall i :: 0 <= i < |s.calls| ==>
          s'.calls[i].key == s.calls[i].key && s'.calls[i].maxConcurrent == s.calls[i].maxConcurrent)
    && (forall ch :: 0 <= ch < |s.chans| ==> s'.chans[ch].key == s.chans[ch].key && s'.chans[ch].cap == s.chans[ch].cap)
  }

  lemma MostStepsKeepShape(cfg: B.Settings, s: Sys, step: Step)
    requires Enabled(s, step) && !step.Arrive? && !step.FindSem?
    ensures SameShape(s, Next(cfg, s, step))
    ensures Next(cfg, s, step).sems == if step.Forget? then s.sems - {step.key} else s.sems
  {
    if Quiet(step) {
      hide Next;
      QuietMove(cfg, s, step);
    } else {
      hide Next;
      OtherStepsKeepShape(cfg, s, step);
    }
  }

  lemma OtherStepsKeepShape(cfg: B.Settings, s: Sys, step: Step)
    requires Enabled(s, step) && (step.Enter? || step.Leave? || step.ResetBreaker? || step.Forget?)
    ensures SameShape(s, Next(cfg, s, step))
    ensures Next(cfg, s, step).sems == if step.Forget? then s.sems - {step.key} else s.sems
  {
  }

  lemma FindSemKeepsOneSem(cfg: B.Settings, s: Sys, i: nat, key: string, max: nat)
    requires Inv(s) && Enabled(s, FindSem(i)) && OneSem(s, key, max)
    ensures OneSem(Next(cfg, s, FindSem(i)), key, max)
  {
    hide CallOk, Holders;
  }

  lemma StepKeepsOneSem(cfg: B.Settings, s: Sys, step: Step, key: string, max: nat)
    requires Inv(s) && Enabled(s, step) && OneSem(s, key, max)
    requires step.Arrive? && step.key == key ==> step.maxConcurrent == max
    requires step != Forget(key)
    ensures OneSem(Next(cfg, s, step), key, max)
  {
    hide Inv;
    if step.FindSem? {
      FindSemKeepsOneSem(cfg, s, step.i, key, max);
    } else if !step.Arrive? {
      hide Next;
      MostStepsKeepShape(cfg, s, step);
    }
  }

  lemma {:induction false} OneSemForever(cfg: B.Settings, ss: seq<Sys>, steps: seq<Step>, n: nat, key: string, max: nat)
    requires Behaviour(cfg, ss, steps) && n < |ss| && FixedLimit(steps, key, max)
    ensures OneSem(ss[n], key, max)
  {
    hide Next, CallOk, Inv, OneSem;
    if n == 0 {
      InitHasOneSem(key, max);
    } else {
      OneSemForever(cfg, ss, steps, n - 1, key, max);
      InvForever(cfg, ss, steps, n - 1);
      StepKeepsOneSem(cfg, ss[n - 1], steps[n - 1], key, max);
    }
  }

  lemma InitHasOneSem(key: string, max: nat)
    ensures OneSem(INIT, key, max)
  {
  }

  /** Forgetting an instance drops its semaphore: the next limited call waits at a new,
      empty one of its own limit. */
  lemma ForgottenStartsAnew(cfg: B.Settings, s: Sys, i: nat)
    requires Enabled(s, FindSem(i)) && s.calls[i].maxConcurrent > 0
    ensures var key, max := s.calls[i].key, s.calls[i].maxConcurrent;
            var s1 := Next(cfg, s, Forget(key));
            && s1.calls == s.calls && s1.limiter == s.limiter && s1.breaker == s.breaker
            && Enabled(s1, FindSem(i))
            && var s2 := Next(cfg, s1, FindSem(i));
               s2.calls[i].place == Waiting(|s.chans|) && s2.chans == s.chans + [Chan(key, max, 0)]
  {
  }

  /** The calls of one instance that are in flight. */
  function InFlightOf(calls: seq<Call>, key: string): nat {
    if calls == [] then 0
    else
      var c := calls[|calls| - 1];
      InFlightOf(calls[..|calls| - 1], key) + if c.place.InFlight? && c.key == key then 1 else 0
  }

  lemma {:induction false} InFlightOfOne(calls: seq<Call>, key: string, ch: nat)
    requires forall i :: 0 <= i < |calls| && calls[i].place.InFlight? && calls[i].key == key ==> calls[i].slot == Some(ch)
    ensures InFlightOf(calls, key) <= InFlightCount(calls, ch)
  {
    if calls != [] { InFlightOfOne(calls[..|calls| - 1], key, ch); }
  }

  /** With a fixed positive limit, no interleaving ever has more calls of the instance
      in flight than that. */
  lemma InFlightNeverExceedsLimit(cfg: B.Settings, ss: seq<Sys>, steps: seq<Step>, n: nat, key: string, max: nat)
    requires Behaviour(cfg, ss, steps) && n < |ss| && max > 0 && FixedLimit(steps, key, max)
    ensures InFlightOf(ss[n].calls, key) <= max
  {
    hide Holders, Next, InFlightOf, InFlightCount;
    var s := ss[n];
    InvForever(cfg, ss, steps, n);
    OneSemForever(cfg, ss, steps, n, key, max);
    forall i | 0 <= i < |s.calls| && s.calls[i].place.InFlight? && s.calls[i].key == key
      ensures s.calls[i].slot.Some? && key in s.sems && s.calls[i].slot == Some(s.sems[key])
    {
      assert CallOk(s.chans, s.calls[i]);
    }
    if key in s.sems {
      InFlightOfOne(s.calls, key, s.sems[key]);
      InFlightWithinCapacity(cfg, ss, steps, n, s.sems[key]);
    } else {
      NoneInFlight(s.calls, key);
    }
  }

  lemma {:induction false} NoneInFlight(calls: seq<Call>, key: string)
    requires forall i :: 0 <= i < |calls| ==> !(calls[i].place.InFlight? && calls[i].key == key)
    ensures InFlightOf(calls, key) == 0
  {
    if calls != [] { NoneInFlight(calls[..|calls| - 1], key); }
  }

  // ---------------------------------------------------------------------
  // What a 4xx means
  // ---------------------------------------------------------------------

  /** A response below 500 never raises any instance's failure count, and never
      opens a circuit that was not open. */
  lemma ClientErrorNeverTrips(cfg: B.Settings, s: Sys, i: nat, now: real, key: string)
    requires Enabled(s, RecordOutcome(i, now)) && s.calls[i].place.reply.Status? && s.calls[i].place.reply.code < 500
    ensures var before, after := B.EntryOf(s.breaker, key), B.EntryOf(Next(cfg, s, RecordOutcome(i, now)).breaker, key);
            after.failures <= before.failures && (after.phase.Open? ==> before.phase.Open?)
  {
    var c := s.calls[i];
    var e := B.EntryOf(s.breaker, c.key);
    var e' := B.RecordEntry(cfg, e, true, now);
    assert e'.failures <= e.failures && !e'.phase.Open?;
    var fetched := B.Fetched(s.breaker, c.key, now);
    if key in fetched && key != c.key { assert fetched[key] == s.breaker[key]; }
  }
}
