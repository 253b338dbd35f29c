/** The token-bucket limiter (internal/upstream/limiter.go), with real-valued tokens
    and a clock in seconds. */
module Limiter {

  datatype Bucket = Bucket(tokens: real, capacity: real, lastFill: real)

  type Buckets = map<string, Bucket>

  const MAX_LIMITER_KEYS := 8192
  const IDLE_SECONDS := 600.0

  // ---------------------------------------------------------------------
  // One call
  // ---------------------------------------------------------------------

  function NewBucket(capacity: real, now: real): Bucket {
    Bucket(capacity, capacity, now)
  }

  /** What a span of seconds refills at a capacity per minute. */
  function Earned(seconds: real, capacity: real): real {
    seconds * capacity / 60.0
  }

  /** Rescale to the capacity now in force, then refill for the time gone by. */
  function Refilled(b: Bucket, capacity: real, now: real): Bucket {
    var tokens := if b.capacity != capacity && b.tokens > capacity then capacity else b.tokens;
    var elapsed := now - b.lastFill;
    if elapsed > 0.0 then
      var more := tokens + Earned(elapsed, capacity);
      Bucket(if more > capacity then capacity else more, capacity, now)
    else Bucket(tokens, capacity, b.lastFill)
  }

  /** Spend a token if there is a whole one. */
  function Spent(b: Bucket): (Bucket, bool) {
    if b.tokens < 1.0 then (b, false) else (b.(tokens := b.tokens - 1.0), true)
  }

  function Swept(bs: Buckets, now: real): Buckets {
    if |bs| <= MAX_LIMITER_KEYS then bs
    else map k | k in bs && !(bs[k].lastFill < now - IDLE_SECONDS) :: bs[k]
  }

  /** Allow, with the answer and the buckets left behind.  sweep says whether a
      bucket added beyond the limit sweeps out the idle ones: the limiter always
      does; the reference limiter below never does. */
  function AllowResult(bs: Buckets, sweep: bool, key: string, ratePerMin: int, now: real): (Buckets, bool) {
    if ratePerMin <= 0 then (bs, true)
    else
      var capacity := ratePerMin as real;
      var bs1 := if key in bs then bs
                 else if sweep then Swept(bs[key := NewBucket(capacity, now)], now)
                 else bs[key := NewBucket(capacity, now)];
      var b := if key in bs then bs[key] else NewBucket(capacity, now);
      var (b', granted) := Spent(Refilled(b, capacity, now));
      (bs1[key := b'], granted)
  }

  // ---------------------------------------------------------------------
  // The limiter
  // ---------------------------------------------------------------------

  class MemoryLimiter {
    var buckets: Buckets

    constructor ()
      ensures buckets == map[]
    {
      buckets := map[];
    }

    /** Spend a token of key's bucket if it has one; a rate that is not positive is no limit. */
    method Allow(key: string, ratePerMin: int, now: real) returns (granted: bool)
      modifies this
      ensures (buckets, granted) == AllowResult(old(buckets), true, key, ratePerMin, now)
    {
      hide Earned;
      if ratePerMin <= 0 { return true; }
      var capacity := ratePerMin as real;
      var b := NewBucket(capacity, now);
      if key in buckets {
        b := buckets[key];
      } else {
        buckets := buckets[key := b];
        Sweep(now);
      }
      if b.capacity != capacity {
        if b.tokens > capacity {
          b := b.(tokens := capacity);
        }
        b := b.(capacity := capacity);
      }
      var elapsed := now - b.lastFill;
      if elapsed > 0.0 {
        b := b.(tokens := b.tokens + Earned(elapsed, capacity));
        if b.tokens > capacity {
          b := b.(tokens := capacity);
        }
        b := b.(lastFill := now);
      }
      granted := b.tokens >= 1.0;
      if granted {
        b := b.(tokens := b.tokens - 1.0);
      }
      buckets := buckets[key := b];
    }

    /** sweepLocked: drop every bucket idle for over ten minutes. */
    method Sweep(now: real)
      modifies this
      ensures buckets == Swept(old(buckets), now)
      ensures |old(buckets)| <= 8192 ==> buckets == old(buckets)
      ensures |old(buckets)| > 8192 ==>
                forall k :: if k in old(buckets) && old(buckets)[k].lastFill >= now - 600.0
                            then k in buckets && buckets[k] == old(buckets)[k] else k !in buckets
    {
      if |buckets| <= MAX_LIMITER_KEYS { return; }
      var todo := buckets.Keys;
      while todo != {}
        invariant todo <= old(buckets).Keys
        invariant buckets == map k | k in old(buckets) && (k in todo || !(old(buckets)[k].lastFill < now - IDLE_SECONDS)) :: old(buckets)[k]
        decreases |todo|
      {
        var k :| k in todo;
        todo := todo - {k};
        if buckets[k].lastFill < now - IDLE_SECONDS {
          buckets := buckets - {k};
        }
      }
    }
  }

  // ---------------------------------------------------------------------
  // Tokens stay within the capacity
  // ---------------------------------------------------------------------

  lemma EarnedIsPositive(seconds: real, capacity: real)
    requires seconds >= 0.0 && capacity >= 0.0
    ensures Earned(seconds, capacity) >= 0.0
  {
  }

  lemma TenMinutesFill(seconds: real, capacity: real)
    requires seconds >= IDLE_SECONDS && capacity >= 1.0
    ensures Earned(seconds, capacity) >= capacity
  {
    EarnedIsPositive(seconds - IDLE_SECONDS, capacity);
    assert Earned(seconds, capacity) == Earned(seconds - IDLE_SECONDS, capacity) + 10.0 * capacity;
  }

  ghost predicate Sound(b: Bucket, now: real) {
    0.0 <= b.tokens <= b.capacity && b.lastFill <= now
  }

  ghost predicate AllSound(bs: Buckets, now: real) {
    forall k :: k in bs ==> Sound(bs[k], now)
  }

  lemma RefillIsSound(b: Bucket, capacity: real, now: real)
    requires Sound(b, now) && capacity >= 1.0
    ensures Sound(Refilled(b, capacity, now), now) && Refilled(b, capacity, now).capacity == capacity
    ensures Sound(Spent(Refilled(b, capacity, now)).0, now)
  {
    hide Earned;
    if now > b.lastFill { EarnedIsPositive(now - b.lastFill, capacity); }
  }

  /** No bucket ever holds less than nothing or more than its capacity. */
  lemma AllowKeepsSound(bs: Buckets, sweep: bool, key: string, ratePerMin: int, now: real)
    requires AllSound(bs, now)
    ensures AllSound(AllowResult(bs, sweep, key, ratePerMin, now).0, now)
  {
    hide Earned;
    if ratePerMin > 0 {
      var capacity := ratePerMin as real;
      RefillIsSound(if key in bs then bs[key] else NewBucket(capacity, now), capacity, now);
    }
  }

  // ---------------------------------------------------------------------
  // Runs
  // ---------------------------------------------------------------------

  datatype Call = Call(key: string, ratePerMin: int, now: real)

  ghost predicate ClockRuns(calls: seq<Call>) {
    forall i, j :: 0 <= i <= j < |calls| ==> calls[i].now <= calls[j].now
  }

  /** The buckets after a run of calls, from none. */
  ghost function BucketsAfter(calls: seq<Call>, sweep: bool): Buckets {
    if calls == [] then map[]
    else
      var c := calls[|calls| - 1];
      AllowResult(BucketsAfter(calls[..|calls| - 1], sweep), sweep, c.key, c.ratePerMin, c.now).0
  }

  /** The answer to the next call after a run. */
  ghost function Answer(calls: seq<Call>, sweep: bool, c: Call): bool {
    AllowResult(BucketsAfter(calls, sweep), sweep, c.key, c.ratePerMin, c.now).1
  }

  ghost predicate Before(calls: seq<Call>, now: real) {
    forall i :: 0 <= i < |calls| ==> calls[i].now <= now
  }

  // ---------------------------------------------------------------------
  // Sweeping cannot be observed
  // ---------------------------------------------------------------------

  /** The sweeping limiter's buckets are the other's, less some that have been idle
      for ten minutes. */
  ghost predicate Covers(u: Buckets, s: Buckets, now: real) {
    && (forall k :: k in s ==> k in u && s[k] == u[k])
    && (forall k :: k in u && k !in s ==> u[k].lastFill < now - IDLE_SECONDS)
  }

  /** Ten idle minutes fill any bucket, at any new rate. */
  lemma IdleIsFull(b: Bucket, capacity: real, now: real)
    requires Sound(b, now) && b.lastFill < now - IDLE_SECONDS && capacity >= 1.0
    ensures Refilled(b, capacity, now) == NewBucket(capacity, now) == Refilled(NewBucket(capacity, now), capacity, now)
  {
    hide Earned;
    TenMinutesFill(now - b.lastFill, capacity);
  }

  lemma SameStep(u: Buckets, s: Buckets, key: string, ratePerMin: int, now: real)
    requires Covers(u, s, now) && AllSound(u, now)
    ensures var (u', a), (s', b) := AllowResult(u, false, key, ratePerMin, now), AllowResult(s, true, key, ratePerMin, now);
            a == b && Covers(u', s', now)
  {
    hide Earned;
    if ratePerMin > 0 && key in u && key !in s {
      IdleIsFull(u[key], ratePerMin as real, now);
    }
  }

  lemma {:induction false} SweptRunCovers(calls: seq<Call>, now: real)
    requires ClockRuns(calls) && Before(calls, now)
    ensures AllSound(BucketsAfter(calls, false), now) && Covers(BucketsAfter(calls, false), BucketsAfter(calls, true), now)
    decreases |calls|
  {
    hide AllowResult;
    if calls != [] {
      var init, c := calls[..|calls| - 1], calls[|calls| - 1];
      SweptRunCovers(init, c.now);
      AllowKeepsSound(BucketsAfter(init, false), false, c.key, c.ratePerMin, c.now);
      SameStep(BucketsAfter(init, false), BucketsAfter(init, true), c.key, c.ratePerMin, c.now);
    }
  }

  /** On every run, the limiter that sweeps answers every call exactly as one that
      never does. */
  lemma SweepingIsUnobservable(calls: seq<Call>, c: Call)
    requires ClockRuns(calls) && Before(calls, c.now)
    ensures Answer(calls, true, c) == Answer(calls, false, c)
  {
    hide AllowResult;
    SweptRunCovers(calls, c.now);
    SameStep(BucketsAfter(calls, false), BucketsAfter(calls, true), c.key, c.ratePerMin, c.now);
  }

  // ---------------------------------------------------------------------
  // The budget
  // ---------------------------------------------------------------------

  /** A call that spends from key's bucket. */
  ghost predicate Limits(c: Call, key: string) {
    c.key == key && c.ratePerMin > 0
  }

  /** How many limited calls for key were granted after the first n calls. */
  ghost function Grants(calls: seq<Call>, key: string, n: nat): nat
    decreases |calls|
  {
    if |calls| <= n then 0
    else
      var init, c := calls[..|calls| - 1], calls[|calls| - 1];
      Grants(init, key, n) + if Limits(c, key) && Answer(init, true, c) then 1 else 0
  }

  /** When key's last limited call was. */
  ghost function LastCall(calls: seq<Call>, key: string): (t: real)
    requires exists i :: 0 <= i < |calls| && Limits(calls[i], key)
    decreases |calls|
  {
    var c := calls[|calls| - 1];
    if Limits(c, key) then c.now else LastCall(calls[..|calls| - 1], key)
  }

  /** The refill the calls after the first n are due: for each limited call for key,
      the seconds since the previous one times the rate then in force over 60. */
  ghost function Refill(calls: seq<Call>, key: string, n: nat): real
    requires n < |calls| && Limits(calls[n], key)
    decreases |calls|
  {
    if |calls| == n + 1 then 0.0
    else
      var init, c := calls[..|calls| - 1], calls[|calls| - 1];
      Refill(init, key, n)
      + if Limits(c, key)
        then (assert Limits(init[n], key); (c.now - LastCall(init, key)) * c.ratePerMin as real / 60.0)
        else 0.0
  }

  /** The tokens a bucket can count on at a call: what it holds, at most the rate, and
      the refill for the seconds gone by, again at most the rate. */
  function InHand(b: Bucket, ratePerMin: int, now: real): real {
    var rate := ratePerMin as real;
    var held := if b.tokens > rate then rate else b.tokens;
    var due := held + (now - b.lastFill) * rate / 60.0;
    if due > rate then rate else due
  }

  /** Every answer, exactly.  Without a limit a call is granted and changes nothing.  A
      first call is granted.  Any other is granted if and only if there is at least one
      token in hand, and takes one then; no other bucket changes. */
  lemma AnswerIff(bs: Buckets, c: Call)
    requires AllSound(bs, c.now)
    ensures var (bs', granted) := AllowResult(bs, false, c.key, c.ratePerMin, c.now);
            if c.ratePerMin <= 0 then granted && bs' == bs
            else
              && bs'.Keys == bs.Keys + {c.key} && (forall k :: k in bs && k != c.key ==> bs'[k] == bs[k])
              && bs'[c.key].lastFill == c.now
              && (c.key !in bs ==> granted && bs'[c.key].tokens == c.ratePerMin as real - 1.0)
              && (c.key in bs ==>
                    var hand := InHand(bs[c.key], c.ratePerMin, c.now);
                    && (granted <==> hand >= 1.0)
                    && bs'[c.key].tokens == hand - if granted then 1.0 else 0.0)
  {
    if c.ratePerMin > 0 {
      hide Refilled, Spent, InHand;
      FreshIsFull(c.ratePerMin, c.now);
      SpendInHand(if c.key in bs then bs[c.key] else NewBucket(c.ratePerMin as real, c.now), c.ratePerMin, c.now);
    }
  }

  lemma SpendInHand(b: Bucket, ratePerMin: int, now: real)
    requires Sound(b, now) && ratePerMin > 0
    ensures var (b', granted) := Spent(Refilled(b, ratePerMin as real, now));
            var hand := InHand(b, ratePerMin, now);
            b'.lastFill == now && (granted <==> hand >= 1.0) && b'.tokens == hand - if granted then 1.0 else 0.0
  {
    Product(now - b.lastFill, ratePerMin as real);
  }

  lemma FreshIsFull(ratePerMin: int, now: real)
    requires ratePerMin > 0
    ensures Sound(NewBucket(ratePerMin as real, now), now)
    ensures InHand(NewBucket(ratePerMin as real, now), ratePerMin, now) == ratePerMin as real >= 1.0
  {
    Product(0.0, ratePerMin as real);
  }

  lemma LastFilled(bs: Buckets, key: string, now: real)
    requires AllSound(bs, now) && key in bs
    ensures bs[key].lastFill <= now
  {
  }

  lemma Product(x: real, y: real)
    requires x >= 0.0 && y >= 1.0
    ensures x * y >= 0.0 && (x == 0.0 ==> x * y == 0.0)
  {
  }

  lemma StepBudget(bs: Buckets, c: Call)
    requires AllSound(bs, c.now) && c.ratePerMin > 0 && c.key in bs
    ensures var (bs', granted) := AllowResult(bs, false, c.key, c.ratePerMin, c.now);
            && c.key in bs' && bs'[c.key].lastFill == c.now
            && bs'[c.key].tokens + (if granted then 1.0 else 0.0)
               <= bs[c.key].tokens + (c.now - bs[c.key].lastFill) * c.ratePerMin as real / 60.0
  {
    hide AllowResult;
    AnswerIff(bs, c);
  }

  lemma RefillStep(calls: seq<Call>, key: string, n: nat) returns (due: real)
    requires n + 1 < |calls| && Limits(calls[n], key)
    ensures var init, c := calls[..|calls| - 1], calls[|calls| - 1];
            && Limits(init[n], key) && Refill(calls, key, n) == Refill(init, key, n) + due
            && due == if Limits(c, key) then (c.now - LastCall(init, key)) * c.ratePerMin as real / 60.0 else 0.0
  {
    var init, c := calls[..|calls| - 1], calls[|calls| - 1];
    assert Limits(init[n], key);
    due := if Limits(c, key) then (c.now - LastCall(init, key)) * c.ratePerMin as real / 60.0 else 0.0;
  }

  /** Tokens in hand plus grants never exceed the first capacity plus the refill. */
  lemma {:induction false} BudgetInvariant(calls: seq<Call>, key: string, n: nat)
    requires ClockRuns(calls) && n < |calls| && Limits(calls[n], key)
    ensures var bs := BucketsAfter(calls, false);
            && key in bs && bs[key].lastFill == LastCall(calls, key)
            && bs[key].tokens + Grants(calls, key, n) as real <= calls[n].ratePerMin as real + Refill(calls, key, n)
    decreases |calls|
  {
    hide AllowResult, Sound, Covers;
    var init, c := calls[..|calls| - 1], calls[|calls| - 1];
    var bs := BucketsAfter(init, false);
    SweptRunCovers(init, c.now);
    SweepingIsUnobservable(init, c);
    if |calls| == n + 1 {
      FirstBudget(bs, c);
      assert Grants(init, key, n) == 0;
    } else {
      hide Refill;
      var due := RefillStep(calls, key, n);
      BudgetInvariant(init, key, n);
      if Limits(c, key) { StepBudget(bs, c); } else { OtherCall(bs, c, key); }
    }
  }

  lemma FirstBudget(bs: Buckets, c: Call)
    requires AllSound(bs, c.now) && c.ratePerMin > 0
    ensures var (bs', granted) := AllowResult(bs, false, c.key, c.ratePerMin, c.now);
            && c.key in bs' && bs'[c.key].lastFill == c.now
            && bs'[c.key].tokens + (if granted then 1.0 else 0.0) <= c.ratePerMin as real
  {
    hide Earned;
    var capacity := c.ratePerMin as real;
    RefillIsSound(if c.key in bs then bs[c.key] else NewBucket(capacity, c.now), capacity, c.now);
  }

  lemma OtherCall(bs: Buckets, c: Call, key: string)
    requires !Limits(c, key) && key in bs
    ensures var bs' := AllowResult(bs, false, c.key, c.ratePerMin, c.now).0; key in bs' && bs'[key] == bs[key]
  {
  }

  /** From any limited call for a key on, the limiter (sweeping and all) grants at
      most that call's capacity plus the time since then at the rates in force,
      however the rate changes. */
  lemma GrantsWithinBudget(calls: seq<Call>, key: string, n: nat)
    requires ClockRuns(calls) && n < |calls| && Limits(calls[n], key)
    ensures Grants(calls, key, n) as real <= calls[n].ratePerMin as real + Refill(calls, key, n)
  {
    BudgetInvariant(calls, key, n);
    SweptRunCovers(calls, calls[|calls| - 1].now);
  }

  // ---------------------------------------------------------------------
  // One rate
  // ---------------------------------------------------------------------

  ghost predicate FixedRate(calls: seq<Call>, key: string, rate: int) {
    forall i :: 0 <= i < |calls| && Limits(calls[i], key) ==> calls[i].ratePerMin == rate
  }

  lemma {:induction false} RefillAtFixedRate(calls: seq<Call>, key: string, n: nat, rate: int)
    requires n < |calls| && Limits(calls[n], key) && FixedRate(calls, key, rate)
    ensures Refill(calls, key, n) == (LastCall(calls, key) - calls[n].now) * rate as real / 60.0
    decreases |calls|
  {
    if |calls| > n + 1 {
      var init, c := calls[..|calls| - 1], calls[|calls| - 1];
      RefillAtFixedRate(init, key, n, rate);
      assert Limits(init[n], key);
      if Limits(c, key) { Distribute(c.now - LastCall(init, key), LastCall(init, key) - calls[n].now, rate as real); }
    } else {
      assert LastCall(calls, key) == calls[n].now;
    }
  }

  lemma Distribute(x: real, y: real, r: real)
    ensures x * r / 60.0 + y * r / 60.0 == (x + y) * r / 60.0
  {
    assert (x + y) * r == x * r + y * r;
  }

  /** At one rate: from any call to the last one, at most the rate plus the time between
      them times the rate over 60. */
  lemma GrantsAtFixedRate(calls: seq<Call>, key: string, n: nat, rate: int)
    requires ClockRuns(calls) && n < |calls| && Limits(calls[n], key) && FixedRate(calls, key, rate)
    ensures Grants(calls, key, n) as real <= rate as real + (LastCall(calls, key) - calls[n].now) * rate as real / 60.0
  {
    GrantsWithinBudget(calls, key, n);
    RefillAtFixedRate(calls, key, n, rate);
  }

  /** b holds what is left of the budget that began at call n. */
  ghost predicate LeftFrom(calls: seq<Call>, key: string, rate: int, n: nat, b: Bucket) {
    && n < |calls| && Limits(calls[n], key) && b.lastFill >= calls[n].now
    && b.tokens == rate as real + (b.lastFill - calls[n].now) * rate as real / 60.0 - Grants(calls, key, n) as real
  }

  /** At one rate the tokens in hand are exactly what is left of the budget that began at
      some call that found the bucket full. */
  lemma {:induction false} TokensAreWhatIsLeft(calls: seq<Call>, key: string, rate: int) returns (n: nat)
    requires ClockRuns(calls) && FixedRate(calls, key, rate) && key in BucketsAfter(calls, false)
    ensures LeftFrom(calls, key, rate, n, BucketsAfter(calls, false)[key])
    decreases |calls|
  {
    hide AllowResult, Sound, Covers, LeftFrom, InHand;
    var init, c := calls[..|calls| - 1], calls[|calls| - 1];
    var bs := BucketsAfter(init, false);
    SweptRunCovers(init, c.now);
    SweepingIsUnobservable(init, c);
    AnswerIff(bs, c);
    if !Limits(c, key) {
      if c.ratePerMin <= 0 { assert BucketsAfter(calls, false) == bs; }
      n := TokensAreWhatIsLeft(init, key, rate);
      LeftUntouched(calls, key, rate, n, bs[key]);
    } else if key in bs {
      var m := TokensAreWhatIsLeft(init, key, rate);
      NotAboveRate(init, key, rate);
      LastFilled(bs, key, c.now);
      n := LeftStep(calls, key, rate, m, bs[key], BucketsAfter(calls, false)[key]);
    } else {
      n := |calls| - 1;
      LeftAnew(calls, key, rate, BucketsAfter(calls, false)[key]);
    }
  }

  lemma LeftUntouched(calls: seq<Call>, key: string, rate: int, n: nat, b: Bucket)
    requires calls != [] && !Limits(calls[|calls| - 1], key) && LeftFrom(calls[..|calls| - 1], key, rate, n, b)
    ensures LeftFrom(calls, key, rate, n, b)
  {
    hide Answer, Limits;
  }

  lemma LeftAnew(calls: seq<Call>, key: string, rate: int, b: Bucket)
    requires calls != []
    requires var c := calls[|calls| - 1];
             Limits(c, key) && Answer(calls[..|calls| - 1], true, c) && b.lastFill == c.now && b.tokens == rate as real - 1.0
    ensures LeftFrom(calls, key, rate, |calls| - 1, b)
  {
    hide Answer, Limits;
    var n := |calls| - 1;
    assert Grants(calls[..n], key, n) == 0;
    assert Grants(calls, key, n) == 1;
    assert (b.lastFill - calls[n].now) * rate as real == 0.0;
  }

  lemma LeftStep(calls: seq<Call>, key: string, rate: int, m: nat, b: Bucket, b': Bucket) returns (n: nat)
    requires calls != [] && LeftFrom(calls[..|calls| - 1], key, rate, m, b) && b.tokens <= rate as real
    requires var c := calls[|calls| - 1];
             var granted := Answer(calls[..|calls| - 1], true, c);
             && Limits(c, key) && c.ratePerMin == rate && b.lastFill <= c.now == b'.lastFill
             && (granted <==> InHand(b, rate, c.now) >= 1.0)
             && b'.tokens == InHand(b, rate, c.now) - if granted then 1.0 else 0.0
    ensures LeftFrom(calls, key, rate, n, b')
  {
    hide Answer;
    var c, r := calls[|calls| - 1], rate as real;
    if b.tokens + (c.now - b.lastFill) * r / 60.0 > r {
      n := |calls| - 1;
      LeftAnew(calls, key, rate, b');
    } else {
      n := m;
      Distribute(c.now - b.lastFill, b.lastFill - calls[m].now, r);
    }
  }

  lemma {:induction false} NotAboveRate(calls: seq<Call>, key: string, rate: int)
    requires ClockRuns(calls) && FixedRate(calls, key, rate) && key in BucketsAfter(calls, false)
    ensures BucketsAfter(calls, false)[key].tokens <= rate as real
    decreases |calls|
  {
    hide AllowResult, Sound, Covers;
    var init, c := calls[..|calls| - 1], calls[|calls| - 1];
    SweptRunCovers(init, c.now);
    AnswerIff(BucketsAfter(init, false), c);
    if !Limits(c, key) {
      if c.ratePerMin <= 0 { assert BucketsAfter(calls, false) == BucketsAfter(init, false); }
      NotAboveRate(init, key, rate);
    }
  }

  /** The limiter is no stricter than its budget: at one rate a call is refused only when,
      from some earlier call that found the bucket full, one more grant would exceed the
      rate plus the time gone by times the rate over 60. */
  lemma RefusedOnlyWhenSpent(calls: seq<Call>, key: string, rate: int, c: Call) returns (n: nat)
    requires ClockRuns(calls) && Before(calls, c.now) && FixedRate(calls, key, rate)
    requires Limits(c, key) && c.ratePerMin == rate && !Answer(calls, true, c)
    ensures n < |calls| && Limits(calls[n], key)
    ensures Grants(calls, key, n) as real + 1.0 > rate as real + (c.now - calls[n].now) * rate as real / 60.0
  {
    hide AllowResult, Sound, Covers;
    var bs := BucketsAfter(calls, false);
    SweptRunCovers(calls, c.now);
    SweepingIsUnobservable(calls, c);
    AnswerIff(bs, c);
    n := TokensAreWhatIsLeft(calls, key, rate);
    NotAboveRate(calls, key, rate);
    Distribute(c.now - bs[key].lastFill, bs[key].lastFill - calls[n].now, rate as real);
  }
}
