/** Eviction is a cache policy. A swept entry stands for a bucket that has had time to fill up, so
    dropping it changes no answer, exactly when `rate * max_age` covers the burst. */
module Eviction {
  import opened TokenBuckets
  import opened Admission
  import opened RateLimiting

  /** The age src/main.rs passes to the eviction task, in nanoseconds. */
  const MAX_AGE: nat := 300 * TOKEN

  /** In `maxAge` an empty bucket refills to its burst. */
  predicate RefillsWithin(c: Call, maxAge: nat) {
    c.burst * TOKEN <= c.rate * maxAge
  }

  ghost predicate AllRefillWithin(trace: seq<Event>, maxAge: nat) {
    forall i :: 0 <= i < |trace| && trace[i].Request? ==> RefillsWithin(trace[i].call, maxAge)
  }

  /** `kept` is `full` with some entries gone, each untouched for `maxAge` at time `clock`. */
  ghost predicate Caches(kept: Table, full: Table, clock: nat, maxAge: nat) {
    && kept.Keys <= full.Keys
    && (forall k :: k in kept ==> kept[k] == full[k])
    && (forall k :: k in full ==> full[k].lastAccess == full[k].lastRefill <= clock)
    && (forall k :: k in full && k !in kept ==> full[k].lastRefill + maxAge <= clock)
  }

  /** A bucket untouched for `maxAge` and a new one serve the next call alike. */
  lemma StaleServesLikeNew(b: Bucket, c: Call, maxAge: nat)
    requires b.lastRefill + maxAge <= c.now
    requires RefillsWithin(c, maxAge)
    ensures TryConsume(b, c) == TryConsume(Full(c), c)
  {
  }

  lemma {:induction false} CachesAfterCheck(kept: Table, full: Table, ip: IpAddr, c: Call, clock: nat, maxAge: nat)
    requires Caches(kept, full, clock, maxAge)
    requires clock <= c.now && RefillsWithin(c, maxAge)
    ensures Check(kept, ip, c).1 == Check(full, ip, c).1
    ensures Caches(Check(kept, ip, c).0, Check(full, ip, c).0, c.now, maxAge)
  {
    var key := NormalizeIp(ip);
    if key in full && key !in kept {
      StaleServesLikeNew(full[key], c, maxAge);
    }
  }

  lemma {:induction false} EvictionSimulation(trace: seq<Event>, maxAge: nat)
    requires Chronological(trace) && AllRefillWithin(trace, maxAge)
    ensures var kept, full := Execute(trace, maxAge), Execute(WithoutSweeps(trace), maxAge);
            && kept.answers == full.answers
            && Caches(kept.table, full.table, if trace == [] then 0 else Time(trace[|trace| - 1]), maxAge)
  {
    if trace != [] {
      var before, last := trace[..|trace| - 1], trace[|trace| - 1];
      EvictionSimulation(before, maxAge);
      var kept, full := Execute(before, maxAge), Execute(WithoutSweeps(before), maxAge);
      var clock := if before == [] then 0 else Time(before[|before| - 1]);
      assert clock <= Time(last);
      if last.Request? {
        ExecuteSnoc(WithoutSweeps(before), last, maxAge);
        CachesAfterCheck(kept.table, full.table, last.ip, last.call, clock, maxAge);
      }
    }
  }

  /** Eviction is invisible: over every trace of requests, reloads and sweeps, the limiter answers as
      one that never evicts. */
  lemma EvictionIsInvisible(trace: seq<Event>, maxAge: nat)
    requires Chronological(trace) && AllRefillWithin(trace, maxAge)
    ensures Execute(trace, maxAge).answers == Execute(WithoutSweeps(trace), maxAge).answers
  {
    EvictionSimulation(trace, maxAge);
  }

  lemma {:induction false} WithoutSweepsKeepsCalls(trace: seq<Event>, key: IpAddr)
    ensures CallsOf(WithoutSweeps(trace), key) == CallsOf(trace, key)
    ensures forall i :: 0 <= i < |WithoutSweeps(trace)| ==> WithoutSweeps(trace)[i].Request?
  {
    if trace != [] {
      var before, last := trace[..|trace| - 1], trace[|trace| - 1];
      WithoutSweepsKeepsCalls(before, key);
      if last.Request? {
        assert (WithoutSweeps(before) + [last])[..|WithoutSweeps(before)|] == WithoutSweeps(before);
      }
    }
  }

  /** The whole limiter, sweeps, reloads and other clients included, gives each key the answers of a
      single bucket: every window of its admissions conforms, and no conforming choice does better. */
  lemma LimiterIsGreedyPerKey(trace: seq<Event>, key: IpAddr, maxAge: nat)
    requires Chronological(trace) && AllRefillWithin(trace, maxAge)
    ensures var calls := CallsOf(trace, key);
            var answers := AnswersTo(Execute(trace, maxAge).answers, key);
            && answers == Greedy(calls)
            && Conforms(calls, answers)
            && forall chosen, n :: |chosen| == |calls| && Conforms(calls, chosen) && 0 <= n <= |calls|
                 ==> Count(chosen, 0, n) <= Count(answers, 0, n)
  {
    EvictionIsInvisible(trace, maxAge);
    WithoutSweepsKeepsCalls(trace, key);
    UnsweptIsGreedy(WithoutSweeps(trace), key, maxAge);
    var calls := CallsOf(trace, key);
    GreedyConforms(calls);
    forall chosen, n | |chosen| == |calls| && Conforms(calls, chosen) && 0 <= n <= |calls|
      ensures Count(chosen, 0, n) <= Count(Greedy(calls), 0, n)
    {
      GreedyIsOptimal(calls, chosen);
    }
  }

  // ----- the condition is exact -----

  ghost predicate InvisibleFor(rate: nat, burst: nat, maxAge: nat) {
    forall trace :: Chronological(trace) && UnderConfig(trace, rate, burst) ==>
      Execute(trace, maxAge).answers == Execute(WithoutSweeps(trace), maxAge).answers
  }

  ghost predicate UnderConfig(trace: seq<Event>, rate: nat, burst: nat) {
    forall i :: 0 <= i < |trace| && trace[i].Request? ==>
      trace[i].call.rate == rate && trace[i].call.burst == burst
  }

  function Repeat<T>(x: T, n: nat): (xs: seq<T>)
    ensures |xs| == n && forall i :: 0 <= i < n ==> xs[i] == x
  {
    if n == 0 then [] else Repeat(x, n - 1) + [x]
  }

  /** `n` requests of one client at one instant. */
  function Burst(ip: IpAddr, c: Call, n: nat): seq<Event> {
    Repeat(Request(ip, c), n)
  }

  /** A trace that continues after the table has emptied runs like a new one. */
  lemma {:induction false} RunsAfresh(before: seq<Event>, after: seq<Event>, maxAge: nat)
    requires Execute(before, maxAge).table == map[]
    ensures Execute(before + after, maxAge).table == Execute(after, maxAge).table
    ensures Execute(before + after, maxAge).answers
         == Execute(before, maxAge).answers + Execute(after, maxAge).answers
    decreases |after|
  {
    if after == [] {
      assert before + after == before;
    } else {
      var init, last := after[..|after| - 1], after[|after| - 1];
      RunsAfresh(before, init, maxAge);
      assert before + after == (before + init) + [last];
      ExecuteSnoc(before + init, last, maxAge);
    }
  }

  /** At the instant it was last refilled, a bucket with whole tokens left spends one. */
  lemma SpendAtSameInstant(c: Call, left: nat)
    requires 1 <= left <= c.burst
    ensures TryConsume(Bucket(left * TOKEN, c.now, c.rate, c.burst, c.now), c)
         == (Bucket((left - 1) * TOKEN, c.now, c.rate, c.burst, c.now), true)
  {
  }

  /** The table after a new client has spent `n` tokens at one instant. */
  function Spent(key: IpAddr, c: Call, n: nat): Table
    requires n <= c.burst
  {
    if n == 0 then map[] else map[key := Bucket((c.burst - n) * TOKEN, c.now, c.rate, c.burst, c.now)]
  }

  lemma SpendOne(r: Run, ip: IpAddr, c: Call, n: nat, maxAge: nat)
    requires n < c.burst && r.table == Spent(NormalizeIp(ip), c, n)
    ensures Step(r, Request(ip, c), maxAge)
         == Run(Spent(NormalizeIp(ip), c, n + 1), r.answers + [Answer(NormalizeIp(ip), true)])
  {
    SpendAtSameInstant(c, c.burst - n);
    hide TryConsume, NormalizeIp;
  }

  /** A new client's burst is admitted whole, and only its own key enters the table. */
  lemma {:induction false} BurstFromFull(ip: IpAddr, c: Call, n: nat, maxAge: nat)
    requires n <= c.burst
    ensures Execute(Burst(ip, c, n), maxAge)
         == Run(Spent(NormalizeIp(ip), c, n), Repeat(Answer(NormalizeIp(ip), true), n))
  {
    hide Step, NormalizeIp, Spent;
    if n > 0 {
      BurstFromFull(ip, c, n - 1, maxAge);
      ExecuteSnoc(Burst(ip, c, n - 1), Request(ip, c), maxAge);
      SpendOne(Execute(Burst(ip, c, n - 1), maxAge), ip, c, n - 1, maxAge);
    } else {
      SpentNothing(NormalizeIp(ip), c);
    }
  }

  lemma SpentNothing(key: IpAddr, c: Call)
    ensures Spent(key, c, 0) == map[]
  {
  }

  /** A burst, a sweep `maxAge` later, and the burst again. */
  function Witness(ip: IpAddr, rate: nat, burst: nat, maxAge: nat): seq<Event> {
    Burst(ip, Call(0, rate, burst), burst)
    + [Sweep({NormalizeIp(ip)}, maxAge, maxAge)]
    + Burst(ip, Call(maxAge, rate, burst), burst)
  }

  /** The sweep lets the second burst through whole. */
  lemma WitnessAdmitted(ip: IpAddr, rate: nat, burst: nat, maxAge: nat)
    ensures Execute(Witness(ip, rate, burst, maxAge), maxAge).answers
         == Repeat(Answer(NormalizeIp(ip), true), 2 * burst)
  {
    var first := Burst(ip, Call(0, rate, burst), burst);
    var second := Burst(ip, Call(maxAge, rate, burst), burst);
    var sweep := Sweep({NormalizeIp(ip)}, maxAge, maxAge);
    BurstFromFull(ip, Call(0, rate, burst), burst, maxAge);
    BurstFromFull(ip, Call(maxAge, rate, burst), burst, maxAge);
    ExecuteSnoc(first, sweep, maxAge);
    assert Execute(first + [sweep], maxAge).table == map[];
    RunsAfresh(first + [sweep], second, maxAge);
  }

  lemma {:induction false} CallsOfBurst(before: seq<Event>, ip: IpAddr, c: Call, n: nat)
    ensures CallsOf(before + Burst(ip, c, n), NormalizeIp(ip))
         == CallsOf(before, NormalizeIp(ip)) + Repeat(c, n)
  {
    if n == 0 {
      assert before + Burst(ip, c, 0) == before;
    } else {
      CallsOfBurst(before, ip, c, n - 1);
      assert (before + Burst(ip, c, n))[..|before| + n - 1] == before + Burst(ip, c, n - 1);
    }
  }

  /** A first window beyond its allowance is not admitted whole. */
  lemma OverAllowance(calls: seq<Call>, n: nat)
    requires 0 < n <= |calls| && Allowance(calls, 0, n) < n * TOKEN
    ensures !AllTrue(Greedy(calls))
  {
    hide Greedy;
    hide Allowance;
    NeverRejectedIff(calls);
    assert (n - 0) * TOKEN == n * TOKEN;
  }

  lemma BurstsTooClose(calls: seq<Call>, rate: nat, burst: nat, maxAge: nat)
    requires rate * maxAge < burst * TOKEN && |calls| == 2 * burst
    requires forall k :: 0 <= k < |calls| ==> calls[k] == Call(if k < burst then 0 else maxAge, rate, burst)
    ensures !AllTrue(Greedy(calls))
  {
    hide Greedy;
    hide Supply;
    SteadySupply(calls, rate, burst, 0, 2 * burst - 1);
    assert Supply(calls, 0, 2 * burst - 1) == (maxAge - 0) * rate == rate * maxAge;
    OverAllowance(calls, 2 * burst);
  }

  /** Two bursts `maxAge` apart are one window, which the bucket keeps within its allowance. */
  lemma TwoBurstsNotAllAdmitted(rate: nat, burst: nat, maxAge: nat)
    requires rate * maxAge < burst * TOKEN
    ensures !AllTrue(Greedy(Repeat(Call(0, rate, burst), burst) + Repeat(Call(maxAge, rate, burst), burst)))
  {
    var calls := Repeat(Call(0, rate, burst), burst) + Repeat(Call(maxAge, rate, burst), burst);
    BurstsTooClose(calls, rate, burst, maxAge);
  }

  lemma WitnessCalls(ip: IpAddr, rate: nat, burst: nat, maxAge: nat)
    ensures CallsOf(Witness(ip, rate, burst, maxAge), NormalizeIp(ip))
         == Repeat(Call(0, rate, burst), burst) + Repeat(Call(maxAge, rate, burst), burst)
  {
    var first := Burst(ip, Call(0, rate, burst), burst);
    var sweep := Sweep({NormalizeIp(ip)}, maxAge, maxAge);
    assert [] + first == first;
    CallsOfBurst([], ip, Call(0, rate, burst), burst);
    assert (first + [sweep])[..|first|] == first;
    CallsOfBurst(first + [sweep], ip, Call(maxAge, rate, burst), burst);
  }

  /** Without the sweep the second burst is not let through whole. */
  lemma WitnessNotAllAdmitted(ip: IpAddr, rate: nat, burst: nat, maxAge: nat)
    requires rate * maxAge < burst * TOKEN
    ensures Execute(WithoutSweeps(Witness(ip, rate, burst, maxAge)), maxAge).answers
         != Repeat(Answer(NormalizeIp(ip), true), 2 * burst)
  {
    var trace := Witness(ip, rate, burst, maxAge);
    var key := NormalizeIp(ip);
    WitnessCalls(ip, rate, burst, maxAge);
    WithoutSweepsKeepsCalls(trace, key);
    UnsweptIsGreedy(WithoutSweeps(trace), key, maxAge);
    TwoBurstsNotAllAdmitted(rate, burst, maxAge);
    AllTrueTo(Repeat(Answer(key, true), 2 * burst), key);
  }

  lemma {:induction false} AllTrueTo(answers: seq<Answer>, key: IpAddr)
    requires forall i :: 0 <= i < |answers| ==> answers[i] == Answer(key, true)
    ensures AnswersTo(answers, key) == Repeat(true, |answers|)
  {
    if answers != [] {
      AllTrueTo(answers[..|answers| - 1], key);
    }
  }

  lemma WitnessIsTrace(ip: IpAddr, rate: nat, burst: nat, maxAge: nat)
    ensures Chronological(Witness(ip, rate, burst, maxAge))
    ensures UnderConfig(Witness(ip, rate, burst, maxAge), rate, burst)
  {
  }

  /** Under one configuration, eviction after `maxAge` is invisible in every trace if and only if an
      empty bucket refills within `maxAge`. */
  lemma EvictionInvisibleIff(rate: nat, burst: nat, maxAge: nat)
    ensures InvisibleFor(rate, burst, maxAge) <==> burst * TOKEN <= rate * maxAge
  {
    hide Execute;
    hide WithoutSweeps;
    hide Witness;
    hide Chronological;
    if burst * TOKEN <= rate * maxAge {
      forall trace | Chronological(trace) && UnderConfig(trace, rate, burst)
        ensures Execute(trace, maxAge).answers == Execute(WithoutSweeps(trace), maxAge).answers
      {
        EvictionIsInvisible(trace, maxAge);
      }
    } else {
      var ip := V4((192, 0, 2, 1));
      WitnessIsTrace(ip, rate, burst, maxAge);
      WitnessAdmitted(ip, rate, burst, maxAge);
      WitnessNotAllAdmitted(ip, rate, burst, maxAge);
    }
  }

  /** With the proxy's 300 second sweep age: invisible exactly when `burst <= 300 * rate`. */
  lemma DeployedEvictionInvisibleIff(rate: nat, burst: nat)
    ensures InvisibleFor(rate, burst, MAX_AGE) <==> burst <= 300 * rate
  {
    EvictionInvisibleIff(rate, burst, MAX_AGE);
  }

  /** A rate and a burst. */
  type Config = (nat, nat)

  ghost predicate UnderAny(trace: seq<Event>, configs: set<Config>) {
    forall i :: 0 <= i < |trace| && trace[i].Request? ==> (trace[i].call.rate, trace[i].call.burst) in configs
  }

  /** With reloads that choose among any configurations: eviction is invisible in every trace over them
      if and only if under each of them an empty bucket refills within `maxAge`. */
  lemma {:induction false} EvictionInvisibleUnderReloadsIff(configs: set<Config>, maxAge: nat)
    ensures (forall trace :: Chronological(trace) && UnderAny(trace, configs) ==>
               Execute(trace, maxAge).answers == Execute(WithoutSweeps(trace), maxAge).answers)
       <==> (forall config :: config in configs ==> config.1 * TOKEN <= config.0 * maxAge)
  {
    hide Execute, WithoutSweeps, Chronological;
    if forall config :: config in configs ==> config.1 * TOKEN <= config.0 * maxAge {
      forall trace | Chronological(trace) && UnderAny(trace, configs)
        ensures Execute(trace, maxAge).answers == Execute(WithoutSweeps(trace), maxAge).answers
      {
        EvictionIsInvisible(trace, maxAge);
      }
    } else {
      var config :| config in configs && config.0 * maxAge < config.1 * TOKEN;
      EvictionInvisibleIff(config.0, config.1, maxAge);
      var trace :| Chronological(trace) && UnderConfig(trace, config.0, config.1)
                && Execute(trace, maxAge).answers != Execute(WithoutSweeps(trace), maxAge).answers;
      assert UnderAny(trace, configs);
    }
  }
}
