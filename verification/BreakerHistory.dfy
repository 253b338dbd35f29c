/** What the breaker's answers say about the past of a key, read off its history of
    calls and outcomes without looking at any counter. */
module BreakerHistory {
  import opened Breaker

  /** The failures recorded since the last success. */
  function Trailing(h: seq<Event>): nat {
    if h == [] then 0
    else match h[|h| - 1]
      case Asked(_) => Trailing(h[..|h| - 1])
      case Told(success, _) => if success then 0 else Trailing(h[..|h| - 1]) + 1
  }

  /** The successes recorded since the last failure. */
  function SuccessRun(h: seq<Event>): nat {
    if h == [] then 0
    else match h[|h| - 1]
      case Asked(_) => SuccessRun(h[..|h| - 1])
      case Told(success, _) => if success then SuccessRun(h[..|h| - 1]) + 1 else 0
  }

  /** The last outcome recorded, if any. */
  function LastTold(h: seq<Event>): (e: Event)
    ensures e.Told? || e == Asked(0.0)
  {
    if h == [] then Asked(0.0)
    else if h[|h| - 1].Told? then h[|h| - 1]
    else LastTold(h[..|h| - 1])
  }

  predicate LastFailed(h: seq<Event>) {
    LastTold(h).Told? && !LastTold(h).success
  }

  /** When the last failure was recorded. */
  function LastFailure(h: seq<Event>): real {
    if h == [] then 0.0
    else match h[|h| - 1]
      case Asked(_) => LastFailure(h[..|h| - 1])
      case Told(success, now) => if success then LastFailure(h[..|h| - 1]) else now
  }

  /** The circuit has tripped and not closed again.  It trips at a run of threshold
      failures, stays tripped through every further failure, and closes at a success
      that was not a probe's, or at the required number of successes in a row. */
  function Tripped(cfg: Settings, h: seq<Event>): bool {
    if h == [] then false
    else
      var before := h[..|h| - 1];
      match h[|h| - 1]
      case Asked(_) => Tripped(cfg, before)
      case Told(success, _) =>
        if success then Tripped(cfg, before) && Probing(cfg, before) && SuccessRun(h) < cfg.halfOpenSuccesses
        else Tripped(cfg, before) || Trailing(h) >= cfg.failureThreshold
  }

  /** Since the last failure a call has been let through to probe a tripped circuit. */
  function Probing(cfg: Settings, h: seq<Event>): bool {
    if h == [] then false
    else
      var before := h[..|h| - 1];
      match h[|h| - 1]
      case Asked(now) =>
        Tripped(cfg, before) && (Probing(cfg, before) || now - LastFailure(before) >= cfg.openDuration)
      case Told(success, _) => success && Probing(cfg, before) && SuccessRun(h) < cfg.halfOpenSuccesses
  }

  /** The entry and the history agree. */
  ghost predicate Explained(cfg: Settings, h: seq<Event>, e: Entry) {
    && (e.phase.Closed? <==> !Tripped(cfg, h))
    && (e.phase.HalfOpen? <==> Tripped(cfg, h) && Probing(cfg, h))
    && (e.phase.Closed? ==> e.failures == Trailing(h) < cfg.failureThreshold)
    && (e.phase.HalfOpen? ==> e.successes == SuccessRun(h) < cfg.halfOpenSuccesses)
    && (!e.phase.Closed? ==> e.failures >= cfg.failureThreshold && e.openedAt == LastFailure(h))
    && (e.phase.Open? ==> SuccessRun(h) == 0 && LastFailed(h) && LastTold(h).now == LastFailure(h))
    && (Probing(cfg, h) ==> Tripped(cfg, h))
  }

  /** On every history: closed means the failures counted are exactly the trailing
      run, below the threshold; half-open means every outcome since the probe was let
      through was a success, fewer than required; open means the last outcome was a
      failure and that is when the circuit opened. */
  lemma {:induction false} HistoryExplains(cfg: Settings, h: seq<Event>)
    ensures Explained(cfg, h, EntryAfter(cfg, h))
  {
    if h != [] {
      HistoryExplains(cfg, h[..|h| - 1]);
      StepExplains(cfg, h[..|h| - 1], h[|h| - 1], EntryAfter(cfg, h[..|h| - 1]));
      assert h == h[..|h| - 1] + [h[|h| - 1]];
    }
  }

  lemma StepExplains(cfg: Settings, h: seq<Event>, ev: Event, e: Entry)
    requires Explained(cfg, h, e)
    ensures Explained(cfg, h + [ev],
              match ev case Asked(now) => AllowEntry(cfg, e, now).0 case Told(success, now) => RecordEntry(cfg, e, success, now))
  {
    var all := h + [ev];
    assert all[..|all| - 1] == h && all[|all| - 1] == ev;
  }

  // ---------------------------------------------------------------------
  // When calls are refused
  // ---------------------------------------------------------------------

  ghost predicate ClockRuns(h: seq<Event>, now: real) {
    && (forall i, j :: 0 <= i <= j < |h| ==> h[i].now <= h[j].now)
    && forall i :: 0 <= i < |h| ==> h[i].now <= now
  }

  /** A circuit that has been probed since its last failure was last refused calls
      more than OpenDuration ago. */
  lemma {:induction false} ProbedMeansCooled(cfg: Settings, h: seq<Event>, now: real)
    requires ClockRuns(h, now) && Tripped(cfg, h) && Probing(cfg, h)
    ensures now - LastFailure(h) >= cfg.openDuration
    decreases |h|
  {
    if h != [] {
      var before, e := h[..|h| - 1], h[|h| - 1];
      if Tripped(cfg, before) && Probing(cfg, before) { ProbedMeansCooled(cfg, before, e.now); }
    }
  }

  lemma {:induction false} LastToldIsLastFailure(h: seq<Event>)
    ensures LastFailed(h) ==> LastTold(h).now == LastFailure(h)
  {
    if h != [] { LastToldIsLastFailure(h[..|h| - 1]); }
  }

  /** A call is refused exactly when the last outcome recorded was a failure that left
      the circuit tripped, less than OpenDuration ago. */
  lemma RefusesIff(cfg: Settings, h: seq<Event>, now: real)
    requires ClockRuns(h, now)
    ensures !AllowEntry(cfg, EntryAfter(cfg, h), now).1
       <==> LastFailed(h) && Tripped(cfg, h) && now - LastTold(h).now < cfg.openDuration
  {
    HistoryExplains(cfg, h);
    LastToldIsLastFailure(h);
    if Tripped(cfg, h) && Probing(cfg, h) { ProbedMeansCooled(cfg, h, now); }
  }

  /** The circuit trips at a run of threshold failures, and only there. */
  lemma FailureTrips(cfg: Settings, h: seq<Event>, now: real)
    ensures var e := EntryAfter(cfg, h + [Told(false, now)]);
            e.phase.Open? <==> Tripped(cfg, h) || Trailing(h) + 1 >= cfg.failureThreshold
  {
    HistoryExplains(cfg, h);
    assert (h + [Told(false, now)])[..|h|] == h;
  }

  /** Half-open lets every call through, not only one probe. */
  lemma HalfOpenAdmitsEveryCall(cfg: Settings, h: seq<Event>, now: real)
    requires Tripped(cfg, h) && Probing(cfg, h)
    ensures AllowEntry(cfg, EntryAfter(cfg, h), now).1
    ensures EntryAfter(cfg, h + [Asked(now)]).phase.HalfOpen?
  {
    HistoryExplains(cfg, h);
    assert (h + [Asked(now)])[..|h|] == h;
  }

  /** A success never raises the failure count and never opens a circuit. */
  lemma SuccessNeverHurts(cfg: Settings, e: Entry, now: real)
    ensures var e' := RecordEntry(cfg, e, true, now); e'.failures <= e.failures && !e'.phase.Open?
  {
  }
}
