/** What one token bucket admits, over every sequence of calls and every change of configuration.

    The bucket is compared with an arbitrary choice of calls to let through. A choice conforms when
    every window of calls stays within the burst in force at its first call plus what was refilled
    during it. The bucket's own choice conforms, and no conforming choice is ever ahead of it. */
module Admission {
  import opened TokenBuckets

  // ----- the bucket's run -----

  /** The bucket after serving `calls`, created full by the first of them. */
  function BucketAfter(calls: seq<Call>): Bucket
    requires calls != []
    decreases |calls|, 1
  {
    var last := calls[|calls| - 1];
    TryConsume(BucketBefore(calls), last).0
  }

  /** The bucket the last call of `calls` finds. */
  function BucketBefore(calls: seq<Call>): Bucket
    requires calls != []
    decreases |calls|, 0
  {
    var last := calls[|calls| - 1];
    if |calls| == 1 then Full(last) else BucketAfter(calls[..|calls| - 1])
  }

  /** The answers the bucket gives to `calls`, in order. */
  function Greedy(calls: seq<Call>): (answers: seq<bool>)
    ensures |answers| == |calls|
  {
    if calls == [] then []
    else Greedy(calls[..|calls| - 1]) + [TryConsume(BucketBefore(calls), calls[|calls| - 1]).1]
  }

  // ----- windows -----

  /** How many of `chosen[lo..hi]` are let through. */
  function Count(chosen: seq<bool>, lo: nat, hi: nat): nat
    requires lo <= hi <= |chosen|
  {
    if lo == hi then 0 else Count(chosen, lo, hi - 1) + (if chosen[hi - 1] then 1 else 0)
  }

  /** Token units refilled just before call `k`, at the rate call `k` brings. */
  function Refilled(calls: seq<Call>, k: nat): nat
    requires k < |calls|
  {
    if k == 0 then 0 else Elapsed(calls[k - 1].now, calls[k].now) * calls[k].rate
  }

  /** Token units refilled after call `i`, up to and including call `j`. */
  function Supply(calls: seq<Call>, i: nat, j: nat): nat
    requires i <= j < |calls|
  {
    if i == j then 0 else Supply(calls, i, j - 1) + Refilled(calls, j)
  }

  /** Token units the calls `i..n` may use: the burst call `i` brings and what is refilled after it. */
  function Allowance(calls: seq<Call>, i: nat, n: nat): nat
    requires i < n <= |calls|
  {
    calls[i].burst * TOKEN + Supply(calls, i, n - 1)
  }

  ghost predicate Conforms(calls: seq<Call>, chosen: seq<bool>)
    requires |chosen| == |calls|
  {
    forall i, n :: 0 <= i < n <= |calls| ==> Count(chosen, i, n) * TOKEN <= Allowance(calls, i, n)
  }

  // ----- the level a choice leaves -----

  /** The level after the first `n` calls if exactly the chosen ones are charged; negative once a
      choice overdraws. */
  function Level(calls: seq<Call>, chosen: seq<bool>, n: nat): int
    requires |chosen| == |calls| && n <= |calls|
    decreases n, 0
  {
    if n == 0 then (if calls == [] then 0 else calls[0].burst * TOKEN)
    else Available(calls, chosen, n - 1) - (if chosen[n - 1] then TOKEN else 0)
  }

  /** The level call `k` finds after its refill. */
  function Available(calls: seq<Call>, chosen: seq<bool>, k: nat): int
    requires |chosen| == |calls| && k < |calls|
    decreases k, 1
  {
    Min(Level(calls, chosen, k) + Refilled(calls, k), calls[k].burst * TOKEN)
  }

  /** What the window from call `i` to call `n - 1` has left of its allowance. */
  function Slack(calls: seq<Call>, chosen: seq<bool>, i: nat, n: nat): int
    requires |chosen| == |calls| && i < n <= |calls|
  {
    Allowance(calls, i, n) - Count(chosen, i, n) * TOKEN
  }

  /** The level is the least slack over the windows that end here. */
  lemma {:induction false} LevelIsLeastSlack(calls: seq<Call>, chosen: seq<bool>, n: nat) returns (tight: nat)
    requires |chosen| == |calls| && 0 < n <= |calls|
    ensures tight < n && Level(calls, chosen, n) == Slack(calls, chosen, tight, n)
    ensures forall i :: 0 <= i < n ==> Level(calls, chosen, n) <= Slack(calls, chosen, i, n)
    decreases n
  {
    var m := n - 1;
    assert Slack(calls, chosen, m, n) == calls[m].burst * TOKEN - (if chosen[m] then TOKEN else 0) by {
      assert Count(chosen, m, m) == 0;
    }
    if n == 1 {
      tight := 0;
    } else {
      var before := LevelIsLeastSlack(calls, chosen, m);
      forall i | 0 <= i < m
        ensures Slack(calls, chosen, i, n)
             == Slack(calls, chosen, i, m) + Refilled(calls, m) - (if chosen[m] then TOKEN else 0)
      {
      }
      tight := if Level(calls, chosen, m) + Refilled(calls, m) <= calls[m].burst * TOKEN then before else m;
    }
  }

  ghost predicate NeverOverdrawn(calls: seq<Call>, chosen: seq<bool>)
    requires |chosen| == |calls|
  {
    forall n :: 0 < n <= |calls| ==> 0 <= Level(calls, chosen, n)
  }

  /** A choice conforms exactly when it never overdraws. */
  lemma ConformsIffNeverOverdrawn(calls: seq<Call>, chosen: seq<bool>)
    requires |chosen| == |calls|
    ensures Conforms(calls, chosen) <==> NeverOverdrawn(calls, chosen)
  {
    if Conforms(calls, chosen) {
      forall n | 0 < n <= |calls|
        ensures 0 <= Level(calls, chosen, n)
      {
        var i := LevelIsLeastSlack(calls, chosen, n);
        assert Count(chosen, i, n) * TOKEN <= Allowance(calls, i, n);
      }
    }
    if NeverOverdrawn(calls, chosen) {
      forall i, n | 0 <= i < n <= |calls|
        ensures Count(chosen, i, n) * TOKEN <= Allowance(calls, i, n)
      {
        var _ := LevelIsLeastSlack(calls, chosen, n);
        assert Level(calls, chosen, n) <= Slack(calls, chosen, i, n);
      }
    }
  }

  // ----- the bucket against every choice -----

  lemma {:induction false} GreedyPrefix(calls: seq<Call>, n: nat)
    requires n <= |calls|
    ensures Greedy(calls[..n]) == Greedy(calls)[..n]
    decreases |calls|
  {
    if n < |calls| {
      GreedyPrefix(calls[..|calls| - 1], n);
      assert calls[..|calls| - 1][..n] == calls[..n];
    } else {
      assert calls[..n] == calls;
    }
  }

  /** The bucket's tokens are the level its own answers leave. */
  lemma {:induction false} BucketIsLevel(calls: seq<Call>, n: nat)
    requires 0 < n <= |calls|
    ensures BucketAfter(calls[..n]).tokens == Level(calls, Greedy(calls), n)
    ensures BucketAfter(calls[..n]).lastRefill == calls[n - 1].now
    ensures Greedy(calls)[n - 1] <==> TOKEN <= Available(calls, Greedy(calls), n - 1)
    decreases n
  {
    var prefix := calls[..n];
    GreedyPrefix(calls, n);
    assert Greedy(prefix)[n - 1] == TryConsume(BucketBefore(prefix), calls[n - 1]).1;
    assert Greedy(calls)[n - 1] == Greedy(prefix)[n - 1];
    if n > 1 {
      BucketIsLevel(calls, n - 1);
      assert prefix[..n - 1] == calls[..n - 1];
    }
    TryConsumeKeepsCapacity(BucketBefore(prefix), calls[n - 1]);
  }

  /** Every window of admissions stays within its burst plus what was refilled, however the rate and
      the burst change between calls. */
  lemma GreedyConforms(calls: seq<Call>)
    ensures Conforms(calls, Greedy(calls))
  {
    forall n | 0 < n <= |calls|
      ensures 0 <= Level(calls, Greedy(calls), n)
    {
      BucketIsLevel(calls, n);
    }
    ConformsIffNeverOverdrawn(calls, Greedy(calls));
  }

  /** A conforming choice that holds more tokens than the bucket has paid for them in admissions. */
  lemma {:induction false} GreedyLeads(calls: seq<Call>, chosen: seq<bool>, n: nat)
    requires |chosen| == |calls| && n <= |calls|
    requires Conforms(calls, chosen)
    ensures Count(chosen, 0, n) <= Count(Greedy(calls), 0, n)
    ensures Level(calls, chosen, n) - Level(calls, Greedy(calls), n)
         <= (Count(Greedy(calls), 0, n) - Count(chosen, 0, n)) * TOKEN
  {
    if n > 0 {
      GreedyLeads(calls, chosen, n - 1);
      BucketIsLevel(calls, n);
      ConformsIffNeverOverdrawn(calls, chosen);
      assert 0 <= Level(calls, chosen, n);
    }
  }

  /** Greedy optimality: no conforming choice has let more calls through after any prefix. */
  lemma GreedyIsOptimal(calls: seq<Call>, chosen: seq<bool>)
    requires |chosen| == |calls|
    requires Conforms(calls, chosen)
    ensures forall n :: 0 <= n <= |calls| ==> Count(chosen, 0, n) <= Count(Greedy(calls), 0, n)
  {
    forall n | 0 <= n <= |calls|
      ensures Count(chosen, 0, n) <= Count(Greedy(calls), 0, n)
    {
      GreedyLeads(calls, chosen, n);
    }
  }

  // ----- consequences -----

  ghost predicate AllTrue(answers: seq<bool>) {
    forall i :: 0 <= i < |answers| ==> answers[i]
  }

  lemma {:induction false} CountAll(answers: seq<bool>, lo: nat, hi: nat)
    requires lo <= hi <= |answers|
    ensures Count(answers, lo, hi) <= hi - lo
    ensures Count(answers, lo, hi) == hi - lo <==> AllTrue(answers[lo..hi])
    decreases hi
  {
    if lo < hi {
      CountAll(answers, lo, hi - 1);
      var shorter := answers[lo..hi - 1];
      assert answers[lo..hi] == shorter + [answers[hi - 1]];
      assert AllTrue(shorter + [answers[hi - 1]]) <==> AllTrue(shorter) && answers[hi - 1] by {
        assert (shorter + [answers[hi - 1]])[|shorter|] == answers[hi - 1];
        assert forall i :: 0 <= i < |shorter| ==> (shorter + [answers[hi - 1]])[i] == shorter[i];
      }
    }
  }

  /** Nobody is turned away exactly when every window of calls fits its allowance. */
  lemma NeverRejectedIff(calls: seq<Call>)
    ensures AllTrue(Greedy(calls))
       <==> forall i, n :: 0 <= i < n <= |calls| ==> (n - i) * TOKEN <= Allowance(calls, i, n)
  {
    var all := seq(|calls|, i => true);
    forall i, n | 0 <= i < n <= |calls|
      ensures Count(all, i, n) == n - i
    {
      CountAll(all, i, n);
    }
    assert Conforms(calls, all)
      <==> forall i, n :: 0 <= i < n <= |calls| ==> (n - i) * TOKEN <= Allowance(calls, i, n);
    if AllTrue(Greedy(calls)) {
      assert Greedy(calls) == all;
      GreedyConforms(calls);
    }
    if Conforms(calls, all) {
      AllConformingMeansAllAdmitted(calls, all);
    }
  }

  lemma AllConformingMeansAllAdmitted(calls: seq<Call>, all: seq<bool>)
    requires |all| == |calls| && AllTrue(all) && Conforms(calls, all)
    ensures AllTrue(Greedy(calls))
  {
    GreedyIsOptimal(calls, all);
    CountAll(Greedy(calls), 0, |calls|);
    CountAll(all, 0, |calls|);
    assert Greedy(calls)[0..|calls|] == Greedy(calls);
  }

  /** A client that waits at least 1/rate between calls, with a burst of at least one, is never rejected. */
  lemma PacedClientNeverRejected(calls: seq<Call>)
    requires forall k :: 0 <= k < |calls| ==> 1 <= calls[k].burst
    requires forall k :: 0 < k < |calls| ==> TOKEN <= Refilled(calls, k)
    ensures AllTrue(Greedy(calls))
  {
    forall k | 0 <= k < |calls|
      ensures Greedy(calls)[k]
    {
      BucketIsLevel(calls, k + 1);
      if k > 0 {
        BucketIsLevel(calls, k);
      }
    }
  }

  /** With a burst of zero, which validation accepts, every call is rejected. */
  lemma ZeroBurstRejectsAll(calls: seq<Call>)
    requires forall k :: 0 <= k < |calls| ==> calls[k].burst == 0
    ensures forall k :: 0 <= k < |calls| ==> !Greedy(calls)[k]
  {
  }

  // ----- one configuration throughout -----

  ghost predicate Steady(calls: seq<Call>, rate: nat, burst: nat) {
    && (forall k :: 0 <= k < |calls| ==> calls[k].rate == rate && calls[k].burst == burst)
    && (forall k :: 0 < k < |calls| ==> calls[k - 1].now <= calls[k].now)
  }

  lemma {:induction false} SteadySupply(calls: seq<Call>, rate: nat, burst: nat, i: nat, j: nat)
    requires Steady(calls, rate, burst)
    requires i <= j < |calls|
    ensures calls[i].now <= calls[j].now
    ensures Supply(calls, i, j) == (calls[j].now - calls[i].now) * rate
    decreases j
  {
    if i < j {
      SteadySupply(calls, rate, burst, i, j - 1);
      assert calls[(j - 1)].now <= calls[j].now;
      calc {
        Supply(calls, i, j);
        (calls[j - 1].now - calls[i].now) * rate + (calls[j].now - calls[j - 1].now) * rate;
        (calls[j].now - calls[i].now) * rate;
      }
    }
  }

  /** Every window admits at most `burst + rate * duration`. */
  ghost predicate WithinAllowance(calls: seq<Call>, chosen: seq<bool>, rate: nat, burst: nat)
    requires |chosen| == |calls|
  {
    forall i, n :: 0 <= i < n <= |calls| ==>
      Count(chosen, i, n) * TOKEN <= burst * TOKEN + (calls[n - 1].now - calls[i].now) * rate
  }

  lemma SteadyConformsIff(calls: seq<Call>, chosen: seq<bool>, rate: nat, burst: nat)
    requires Steady(calls, rate, burst) && |chosen| == |calls|
    ensures Conforms(calls, chosen) <==> WithinAllowance(calls, chosen, rate, burst)
  {
    forall i, n | 0 <= i < n <= |calls|
      ensures Allowance(calls, i, n) == burst * TOKEN + (calls[n - 1].now - calls[i].now) * rate
    {
      SteadySupply(calls, rate, burst, i, n - 1);
    }
    hide Allowance;
  }

  /** Greedy optimality for a fixed rate and burst: the bucket meets the window bound, and no choice
      that meets it admits more in any prefix. */
  lemma {:induction false} SteadyGreedyOptimality(calls: seq<Call>, rate: nat, burst: nat)
    requires Steady(calls, rate, burst)
    ensures WithinAllowance(calls, Greedy(calls), rate, burst)
    ensures forall chosen: seq<bool>, n ::
              |chosen| == |calls| && WithinAllowance(calls, chosen, rate, burst) && 0 <= n <= |calls|
              ==> Count(chosen, 0, n) <= Count(Greedy(calls), 0, n)
  {
    hide Greedy;
    hide WithinAllowance;
    GreedyConforms(calls);
    SteadyConformsIff(calls, Greedy(calls), rate, burst);
    forall chosen: seq<bool>, n: int |
      |chosen| == |calls| && WithinAllowance(calls, chosen, rate, burst) && 0 <= n <= |calls|
      ensures Count(chosen, 0, n) <= Count(Greedy(calls), 0, n)
    {
      SteadyConformsIff(calls, chosen, rate, burst);
      GreedyIsOptimal(calls, chosen);
    }
  }
}
