/** The rate limits of the configuration file, as the limiter of src/rate_limit/mod.rs enforces them:
    each request takes rate and burst from the configuration visible to it. */
module Limits {
  import opened TokenBuckets
  import opened Admission
  import opened Config

  /** What `check_and_consume` brings to a bucket. */
  function CallUnder(d: DynamicConfig, now: nat): Call {
    Call(now, d.rateLimit.requestsPerSecond, d.rateLimit.burst)
  }

  /** A client's calls at these instants, under one file. */
  function CallsUnder(full: FullConfig, times: seq<nat>): seq<Call> {
    seq(|times|, k requires 0 <= k < |times| => CallUnder(IntoStaticAndDynamic(full).1, times[k]))
  }

  /** Every window of the admitted calls is within the file's burst and rate. */
  ghost predicate WithinLimits(full: FullConfig, times: seq<nat>, chosen: seq<bool>)
    requires |chosen| == |times|
  {
    forall i, n :: 0 <= i < n <= |times| ==>
      Count(chosen, i, n) * TOKEN
      <= full.rateLimit.burst * TOKEN + (times[n - 1] as int - times[i]) * full.rateLimit.requestsPerSecond
  }

  lemma SameBound(full: FullConfig, times: seq<nat>, chosen: seq<bool>)
    requires |chosen| == |times|
    ensures WithinLimits(full, times, chosen)
       <==> WithinAllowance(CallsUnder(full, times), chosen, full.rateLimit.requestsPerSecond, full.rateLimit.burst)
  {
  }

  /** The limits written in the file are enforced, and enforced no more than that: in every window the
      client gets at most the file's burst and the file's rate for the window's duration, and no choice
      that stays within these ever admits more. */
  lemma {:induction false} LimiterEnforcesFile(full: FullConfig, times: seq<nat>)
    requires forall k :: 0 < k < |times| ==> times[k - 1] <= times[k]
    ensures var answers := Greedy(CallsUnder(full, times));
            && |answers| == |times|
            && WithinLimits(full, times, answers)
            && forall chosen, n :: |chosen| == |times| && WithinLimits(full, times, chosen) && 0 <= n <= |times|
                 ==> Count(chosen, 0, n) <= Count(answers, 0, n)
  {
    var calls := CallsUnder(full, times);
    var rate, burst := full.rateLimit.requestsPerSecond, full.rateLimit.burst;
    SteadyGreedyOptimality(calls, rate, burst);
    hide Greedy;
    forall chosen: seq<bool> | |chosen| == |times|
      ensures WithinLimits(full, times, chosen) <==> WithinAllowance(calls, chosen, rate, burst)
    {
      SameBound(full, times, chosen);
    }
  }
}
