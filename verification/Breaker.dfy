/** The per-key circuit breaker (internal/upstream/breaker.go), over a clock in
    seconds whose zero is Go's zero time. */
module Breaker {

  datatype Phase = Closed | Open | HalfOpen

  datatype Config = Config(failureThreshold: int, openDuration: real, halfOpenSuccesses: int)

  function WithDefaults(c: Config): (d: Config)
    ensures d.failureThreshold > 0 && d.openDuration > 0.0 && d.halfOpenSuccesses > 0
  {
    Config(if c.failureThreshold <= 0 then 5 else c.failureThreshold,
           if c.openDuration <= 0.0 then 30.0 else c.openDuration,
           if c.halfOpenSuccesses <= 0 then 2 else c.halfOpenSuccesses)
  }

  /** A configuration that WithDefaults has completed. */
  type Settings = c: Config | c.failureThreshold > 0 && c.openDuration > 0.0 && c.halfOpenSuccesses > 0
    witness Config(5, 30.0, 2)

  datatype Entry = Entry(phase: Phase, failures: nat, successes: nat, openedAt: real, lastActivity: real)

  type Entries = map<string, Entry>

  const NEW := Entry(Closed, 0, 0, 0.0, 0.0)
  const MAX_BREAKER_KEYS := 4096
  const HOUR := 3600.0

  // ---------------------------------------------------------------------
  // One entry
  // ---------------------------------------------------------------------

  function AllowEntry(cfg: Settings, e: Entry, now: real): (Entry, bool) {
    var e := e.(lastActivity := now);
    if e.phase.Open? then
      if now - e.openedAt < cfg.openDuration then (e, false)
      else (e.(phase := HalfOpen, successes := 0), true)
    else (e, true)
  }

  function RecordEntry(cfg: Settings, e: Entry, success: bool, now: real): Entry {
    var e := e.(lastActivity := now);
    if success then
      if e.phase.HalfOpen? then
        if e.successes + 1 >= cfg.halfOpenSuccesses then e.(phase := Closed, failures := 0, successes := 0)
        else e.(successes := e.successes + 1)
      else e.(phase := Closed, failures := 0)
    else
      var e := e.(failures := e.failures + 1, successes := 0);
      if e.phase.HalfOpen? || e.failures >= cfg.failureThreshold then e.(phase := Open, openedAt := now) else e
  }

  // ---------------------------------------------------------------------
  // All entries
  // ---------------------------------------------------------------------

  predicate Idle(e: Entry, now: real) {
    e.phase.Closed? && e.lastActivity < now - HOUR
  }

  function Swept(es: Entries, now: real): Entries {
    if |es| <= MAX_BREAKER_KEYS then es
    else map k | k in es && !Idle(es[k], now) :: es[k]
  }

  /** Fetching or creating an entry.  A key created beyond the limit may be swept at
      once, for its last activity is still the zero time: the caller then works on an
      entry the map no longer holds. */
  function Fetched(es: Entries, key: string, now: real): Entries {
    if key in es then es else Swept(es[key := NEW], now)
  }

  function EntryOf(es: Entries, key: string): Entry {
    if key in es then es[key] else NEW
  }

  /** Write back an entry, unless the map no longer holds it. */
  function Kept(es: Entries, key: string, e: Entry): Entries {
    if key in es then es[key := e] else es
  }

  lemma OnlyOneChanged(was: Entries, es: Entries, key: string, e: Entry)
    requires es.Keys == was.Keys && (key in was ==> es[key] == e)
    requires forall k :: k in was && k != key ==> es[k] == was[k]
    ensures es == Kept(was, key, e)
  {
  }

  function AllowAll(cfg: Settings, es: Entries, key: string, now: real): (Entries, bool) {
    var (e, admitted) := AllowEntry(cfg, EntryOf(es, key), now);
    (Kept(Fetched(es, key, now), key, e), admitted)
  }

  function RecordAll(cfg: Settings, es: Entries, key: string, success: bool, now: real): Entries {
    Kept(Fetched(es, key, now), key, RecordEntry(cfg, EntryOf(es, key), success, now))
  }

  /** What State reports. */
  function Reported(cfg: Settings, es: Entries, key: string, now: real): Phase {
    var e := EntryOf(es, key);
    if e.phase.Open? && now - e.openedAt >= cfg.openDuration then HalfOpen else e.phase
  }

  // ---------------------------------------------------------------------
  // The breaker
  // ---------------------------------------------------------------------

  class BreakerEntry {
    var phase: Phase
    var failures: nat
    var successes: nat
    var openedAt: real
    var lastActivity: real

    constructor ()
      ensures Value() == NEW
    {
      phase, failures, successes, openedAt, lastActivity := Closed, 0, 0, 0.0, 0.0;
    }

    function Value(): Entry
      reads this
    {
      Entry(phase, failures, successes, openedAt, lastActivity)
    }

    /** The body of Allow, once the entry is at hand. */
    method Admit(cfg: Settings, now: real) returns (admitted: bool)
      modifies this
      ensures (Value(), admitted) == AllowEntry(cfg, old(Value()), now)
    {
      lastActivity := now;
      if phase.Open? {
        if now - openedAt < cfg.openDuration { return false; }
        phase, successes := HalfOpen, 0;
      }
      return true;
    }

    /** The body of Record, once the entry is at hand. */
    method Note(cfg: Settings, success: bool, now: real)
      modifies this
      ensures Value() == RecordEntry(cfg, old(Value()), success, now)
    {
      lastActivity := now;
      if success {
        if phase.HalfOpen? {
          successes := successes + 1;
          if successes >= cfg.halfOpenSuccesses {
            phase, failures, successes := Closed, 0, 0;
          }
        } else {
          phase, failures := Closed, 0;
        }
        return;
      }
      failures, successes := failures + 1, 0;
      if phase.HalfOpen? || failures >= cfg.failureThreshold {
        phase, openedAt := Open, now;
      }
    }
  }

  class CircuitBreaker {
    const cfg: Settings
    var state: map<string, BreakerEntry>

    /** No two keys share an entry. */
    ghost predicate Valid()
      reads this
    {
      forall a, b :: a in state && b in state && a != b ==> state[a] != state[b]
    }

    ghost function View(): Entries
      reads this, state.Values
    {
      map k | k in state :: state[k].Value()
    }

    constructor (config: Config)
      ensures Valid() && View() == map[] && cfg == WithDefaults(config)
      ensures cfg.failureThreshold == if config.failureThreshold <= 0 then 5 else config.failureThreshold
      ensures cfg.openDuration == if config.openDuration <= 0.0 then 30.0 else config.openDuration
      ensures cfg.halfOpenSuccesses == if config.halfOpenSuccesses <= 0 then 2 else config.halfOpenSuccesses
    {
      cfg, state := WithDefaults(config), map[];
    }

    /** entry: fetch or create the entry of a key, sweeping when one was created. */
    method Fetch(key: string, now: real) returns (e: BreakerEntry)
      requires Valid()
      modifies this
      ensures Valid()
      ensures key in old(state) ==> state == old(state) && e == state[key]
      ensures key !in old(state) ==> fresh(e)
      ensures fresh(state.Values - old(state.Values))
      ensures e.Value() == EntryOf(old(View()), key)
      ensures View() == Fetched(old(View()), key, now)
      ensures forall k :: k in state ==> if k == key then state[k] == e else k in old(state) && state[k] == old(state)[k] && state[k] != e
    {
      if key in state { return state[key]; }
      e := new BreakerEntry();
      state := state[key := e];
      ghost var before := View();
      assert before == old(View())[key := NEW];
      Sweep(now);
    }

    method Sweep(now: real)
      requires Valid()
      modifies this
      ensures Valid() && View() == Swept(old(View()), now)
      ensures forall k :: k in state ==> k in old(state) && state[k] == old(state)[k]
    {
      hide Idle;
      ghost var was := View();
      assert was.Keys == state.Keys;
      if |state| <= MAX_BREAKER_KEYS { return; }
      var todo := state.Keys;
      while todo != {}
        invariant todo <= was.Keys
        invariant forall k :: k in state <==> k in was && (k in todo || !Idle(was[k], now))
        invariant forall k :: k in state ==> state[k] == old(state)[k]
        decreases |todo|
      {
        var k :| k in todo;
        todo := todo - {k};
        assert state[k].Value() == was[k];
        if Idle(state[k].Value(), now) {
          state := state - {k};
        }
      }
    }

    method Allow(key: string, now: real) returns (admitted: bool)
      requires Valid()
      modifies this, state.Values
      ensures Valid() && (View(), admitted) == AllowAll(cfg, old(View()), key, now)
      ensures fresh(state.Values - old(state.Values))
    {
      hide AllowEntry, Fetched, EntryOf, Idle, Swept, Kept;
      var e := Fetch(key, now);
      ghost var was := View();
      admitted := e.Admit(cfg, now);
      OnlyOneChanged(was, View(), key, e.Value());
    }

    method Record(key: string, success: bool, now: real)
      requires Valid()
      modifies this, state.Values
      ensures Valid() && View() == RecordAll(cfg, old(View()), key, success, now)
      ensures fresh(state.Values - old(state.Values))
    {
      hide RecordEntry, Fetched, EntryOf, Idle, Swept, Kept;
      var e := Fetch(key, now);
      ghost var was := View();
      e.Note(cfg, success, now);
      OnlyOneChanged(was, View(), key, e.Value());
    }

    /** State, which says open exactly when Allow would refuse. */
    method State(key: string, now: real) returns (phase: Phase)
      ensures phase == Reported(cfg, View(), key, now)
      ensures phase.Open? <==> !AllowAll(cfg, View(), key, now).1
    {
      if key !in state { return Closed; }
      var e := state[key];
      if e.phase.Open? && now - e.openedAt >= cfg.openDuration { return HalfOpen; }
      return e.phase;
    }

    method Reset(key: string)
      requires Valid()
      modifies this
      ensures Valid() && View() == old(View()) - {key}
    {
      state := state - {key};
    }
  }

  // ---------------------------------------------------------------------
  // The map is bounded
  // ---------------------------------------------------------------------

  /** Creating a key beyond the limit drops at least that key again: its last
      activity is still the zero time. */
  lemma FetchedIsBounded(es: Entries, key: string, now: real)
    requires |es| <= MAX_BREAKER_KEYS && now > HOUR
    ensures |Fetched(es, key, now)| <= MAX_BREAKER_KEYS
    ensures key in Fetched(es, key, now) <==> key in es || |es| < MAX_BREAKER_KEYS
  {
    if key !in es {
      var more := es[key := NEW];
      assert more.Keys == es.Keys + {key};
      var swept := Swept(more, now);
      if |more| > MAX_BREAKER_KEYS {
        assert swept.Keys <= es.Keys;
        Fewer(swept.Keys, es.Keys);
        assert |swept| == |swept.Keys| && |es| == |es.Keys|;
      }
    }
  }

  /** At most 4096 keys are swept not at all; beyond that, exactly the closed entries
      without activity for over an hour go. */
  lemma SweptIs(es: Entries, now: real)
    ensures |es| <= 4096 ==> Swept(es, now) == es
    ensures |es| > 4096 ==>
              forall k :: if k in es && (!es[k].phase.Closed? || es[k].lastActivity >= now - 3600.0)
                          then k in Swept(es, now) && Swept(es, now)[k] == es[k] else k !in Swept(es, now)
  {
  }

  lemma {:induction false} Fewer(a: set<string>, b: set<string>)
    requires a <= b
    ensures |a| <= |b|
  {
    if a != {} {
      var x :| x in a;
      Fewer(a - {x}, b - {x});
    }
  }

  datatype Call = Allow(key: string, now: real) | Record(key: string, success: bool, now: real) | Reset(key: string)

  function Apply(cfg: Settings, es: Entries, c: Call): Entries {
    match c
    case Allow(key, now) => AllowAll(cfg, es, key, now).0
    case Record(key, success, now) => RecordAll(cfg, es, key, success, now)
    case Reset(key) => es - {key}
  }

  ghost function EntriesAfter(cfg: Settings, calls: seq<Call>): Entries {
    if calls == [] then map[] else Apply(cfg, EntriesAfter(cfg, calls[..|calls| - 1]), calls[|calls| - 1])
  }

  /** On every run, under a clock later than one hour after the zero time, the map
      never holds more than 4096 keys. */
  lemma {:induction false} MapIsBounded(cfg: Settings, calls: seq<Call>)
    requires forall i :: 0 <= i < |calls| && !calls[i].Reset? ==> calls[i].now > HOUR
    ensures |EntriesAfter(cfg, calls)| <= 4096
  {
    hide AllowEntry, RecordEntry, Fetched;
    if calls != [] {
      var es, c := EntriesAfter(cfg, calls[..|calls| - 1]), calls[|calls| - 1];
      MapIsBounded(cfg, calls[..|calls| - 1]);
      if c.Reset? {
        Fewer((es - {c.key}).Keys, es.Keys);
      } else {
        FetchedIsBounded(es, c.key, c.now);
        KeptSize(Fetched(es, c.key, c.now), c.key);
      }
    }
  }

  /** While the map stays full, a key without an entry gets none and is never refused,
      however many failures are recorded for it. */
  lemma {:induction false} OverflowIsNeverRefused(cfg: Settings, calls: seq<Call>, n: nat, key: string, now: real)
    requires forall i :: 0 <= i < |calls| && !calls[i].Reset? ==> calls[i].now > HOUR
    requires n <= |calls| && key !in EntriesAfter(cfg, calls[..n])
    requires forall m :: n <= m <= |calls| ==> |EntriesAfter(cfg, calls[..m])| == MAX_BREAKER_KEYS
    ensures key !in EntriesAfter(cfg, calls) && AllowAll(cfg, EntriesAfter(cfg, calls), key, now).1
    decreases |calls|
  {
    hide Apply, Fetched;
    assert calls[..|calls|] == calls;
    if n < |calls| {
      var before, c := calls[..|calls| - 1], calls[|calls| - 1];
      forall m | n <= m <= |before| ensures before[..m] == calls[..m] {}
      OverflowIsNeverRefused(cfg, before, n, key, now);
      StaysOut(cfg, EntriesAfter(cfg, before), c, key);
    }
  }

  lemma StaysOut(cfg: Settings, es: Entries, c: Call, key: string)
    requires |es| == MAX_BREAKER_KEYS && key !in es && (!c.Reset? ==> c.now > HOUR)
    ensures key !in Apply(cfg, es, c)
  {
    hide AllowEntry, RecordEntry, Idle;
    if !c.Reset? && c.key == key { FetchedIsBounded(es, key, c.now); }
  }

  lemma KeptSize(es: Entries, key: string)
    ensures forall e :: |Kept(es, key, e)| == |es|
  {
    forall e ensures |Kept(es, key, e)| == |es| {
      assert Kept(es, key, e).Keys == es.Keys;
    }
  }

  // ---------------------------------------------------------------------
  // The history of one key
  // ---------------------------------------------------------------------

  /** What happened to one key: a call asked, or the outcome of one was recorded. */
  datatype Event = Asked(now: real) | Told(success: bool, now: real)

  function EntryAfter(cfg: Settings, h: seq<Event>): Entry {
    if h == [] then NEW
    else
      var before := EntryAfter(cfg, h[..|h| - 1]);
      match h[|h| - 1]
      case Asked(now) => AllowEntry(cfg, before, now).0
      case Told(success, now) => RecordEntry(cfg, before, success, now)
  }

  /** The history of key since its entry was last created: empty again whenever a
      reset, or a sweep, has left no entry. */
  ghost function HistoryOf(cfg: Settings, calls: seq<Call>, key: string): seq<Event> {
    if calls == [] || key !in EntriesAfter(cfg, calls) then []
    else
      var before := HistoryOf(cfg, calls[..|calls| - 1], key);
      match calls[|calls| - 1]
      case Allow(k, now) => if k == key then before + [Asked(now)] else before
      case Record(k, success, now) => if k == key then before + [Told(success, now)] else before
      case Reset(k) => before
  }

  /** One call does to a key's entry, if the map still holds it, what it would do to
      the entry alone. */
  lemma ApplyToOne(cfg: Settings, es: Entries, c: Call, key: string)
    ensures key in Apply(cfg, es, c) ==>
              Apply(cfg, es, c)[key] ==
              var e := EntryOf(es, key);
              match c
              case Allow(k, now) => if k == key then AllowEntry(cfg, e, now).0 else e
              case Record(k, success, now) => if k == key then RecordEntry(cfg, e, success, now) else e
              case Reset(k) => e
  {
    hide AllowEntry, RecordEntry, Idle;
  }

  /** However many keys there are, an entry the map holds depends on its own key's
      history alone. */
  lemma {:induction false} EntryIsItsHistory(cfg: Settings, calls: seq<Call>, key: string)
    ensures EntryOf(EntriesAfter(cfg, calls), key) == EntryAfter(cfg, HistoryOf(cfg, calls, key))
    ensures key !in EntriesAfter(cfg, calls) ==> HistoryOf(cfg, calls, key) == []
  {
    hide AllowEntry, RecordEntry, Apply;
    if calls != [] {
      var before := calls[..|calls| - 1];
      EntryIsItsHistory(cfg, before, key);
      ApplyToOne(cfg, EntriesAfter(cfg, before), calls[|calls| - 1], key);
      var h := HistoryOf(cfg, before, key);
      match calls[|calls| - 1]
      case Allow(k, now) => assert (h + [Asked(now)])[..|h|] == h;
      case Record(k, success, now) => assert (h + [Told(success, now)])[..|h|] == h;
      case Reset(k) =>
    }
  }
}
