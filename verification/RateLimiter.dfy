/** The keyed rate limiter of src/rate_limit/mod.rs: one bucket per normalised client address,
    created full on first use and dropped by a periodic sweep. */
module RateLimiting {
  import opened TokenBuckets
  import opened Admission

  // ----- client addresses -----

  datatype IpAddr =
    | V4(octets: (nat, nat, nat, nat))
    | V6(s0: nat, s1: nat, s2: nat, s3: nat, s4: nat, s5: nat, s6: nat, s7: nat)

  /** IPv4 addresses stand for themselves, IPv6 addresses for their /64. */
  function NormalizeIp(ip: IpAddr): IpAddr {
    match ip
    case V4(_) => ip
    case V6(s0, s1, s2, s3, _, _, _, _) => V6(s0, s1, s2, s3, 0, 0, 0, 0)
  }

  /** Two addresses share a bucket exactly when they are the same IPv4 address or IPv6 addresses
      whose first four segments agree. */
  lemma ShareBucketIff(a: IpAddr, b: IpAddr)
    ensures NormalizeIp(a) == NormalizeIp(b)
       <==> || (a.V4? && a == b)
            || (a.V6? && b.V6? && a.s0 == b.s0 && a.s1 == b.s1 && a.s2 == b.s2 && a.s3 == b.s3)
    ensures NormalizeIp(NormalizeIp(a)) == NormalizeIp(a)
  {
  }

  // ----- the table of buckets -----

  type Table = map<IpAddr, Bucket>

  /** `check_and_consume`: the table afterwards and the answer. */
  function Check(t: Table, ip: IpAddr, c: Call): (Table, bool) {
    var key := NormalizeIp(ip);
    var (b, ok) := TryConsume(if key in t then t[key] else Full(c), c);
    (t[key := b], ok)
  }

  /** `evict_stale` on one shard of the table: entries not accessed after the cutoff go. */
  function Retain(t: Table, shard: set<IpAddr>, cutoff: int): Table {
    map k | k in t && (k !in shard || t[k].lastAccess > cutoff) :: t[k]
  }

  class RateLimiter {
    var buckets: map<IpAddr, TokenBucket>
    var rate: nat
    var burst: nat

    /** No two keys share a bucket object. */
    ghost predicate Valid()
      reads this
    {
      forall j, k :: j in buckets && k in buckets && j != k ==> buckets[j] != buckets[k]
    }

    ghost function View(): Table
      reads this, buckets.Values
    {
      map k | k in buckets :: buckets[k].Value()
    }

    constructor (rate: nat, burst: nat)
      ensures Valid() && View() == map[]
      ensures this.rate == rate && this.burst == burst
    {
      this.rate := rate;
      this.burst := burst;
      buckets := map[];
    }

    /** A reload stores new parameters; buckets adopt them on their next request. */
    method Reload(rate: nat, burst: nat)
      requires Valid()
      modifies this
      ensures Valid() && View() == old(View())
      ensures this.rate == rate && this.burst == burst
    {
      this.rate := rate;
      this.burst := burst;
    }

    method CheckAndConsume(ip: IpAddr, now: nat) returns (ok: bool)
      requires Valid()
      modifies this, buckets.Values
      ensures Valid() && fresh(buckets.Values - old(buckets.Values))
      ensures (View(), ok) == Check(old(View()), ip, Call(now, old(rate), old(burst)))
      ensures rate == old(rate) && burst == old(burst)
    {
      var key := NormalizeIp(ip);
      var c := Call(now, rate, burst);
      if key in buckets {
        ok := buckets[key].Consume(c);
        assert View() == old(View())[key := buckets[key].Value()];
      } else {
        var bucket := new TokenBucket(c);
        ok := bucket.Consume(c);
        buckets := buckets[key := bucket];
        assert View() == old(View())[key := bucket.Value()];
      }
    }

    method EvictStale(shard: set<IpAddr>, now: nat, maxAge: nat)
      requires Valid()
      modifies this
      ensures Valid() && buckets.Values <= old(buckets.Values)
      ensures View() == Retain(old(View()), shard, now - maxAge)
      ensures rate == old(rate) && burst == old(burst)
    {
      buckets := map k | k in buckets && (k !in shard || buckets[k].lastAccess > now - maxAge) :: buckets[k];
    }

    method ContainsIp(ip: IpAddr) returns (present: bool)
      ensures present <==> NormalizeIp(ip) in View()
    {
      present := NormalizeIp(ip) in buckets;
    }
  }

  // ----- runs -----

  /** A request brings the configuration its own load returned. A sweep reads the clock once, at
      `readAt`, and filters each shard later, at `at`, possibly between requests. */
  datatype Event =
    | Request(ip: IpAddr, call: Call)
    | Sweep(shard: set<IpAddr>, readAt: nat, at: nat)

  function Time(e: Event): nat {
    match e
    case Request(_, c) => c.now
    case Sweep(_, _, at) => at
  }

  datatype Answer = Answer(key: IpAddr, ok: bool)

  datatype Run = Run(table: Table, answers: seq<Answer>)

  function Step(r: Run, e: Event, maxAge: nat): Run {
    match e
    case Request(ip, c) =>
      var (t, ok) := Check(r.table, ip, c);
      Run(t, r.answers + [Answer(NormalizeIp(ip), ok)])
    case Sweep(shard, readAt, _) =>
      Run(Retain(r.table, shard, readAt - maxAge), r.answers)
  }

  /** The limiter after `trace`, started empty. */
  function Execute(trace: seq<Event>, maxAge: nat): Run {
    if trace == [] then Run(map[], [])
    else Step(Execute(trace[..|trace| - 1], maxAge), trace[|trace| - 1], maxAge)
  }

  /** Clock readings never go backwards. */
  ghost predicate Chronological(trace: seq<Event>) {
    && (forall i :: 0 < i < |trace| ==> Time(trace[i - 1]) <= Time(trace[i]))
    && (forall i :: 0 <= i < |trace| && trace[i].Sweep? ==> trace[i].readAt <= trace[i].at)
  }

  /** The requests of one key, in order. */
  function CallsOf(trace: seq<Event>, key: IpAddr): seq<Call> {
    if trace == [] then [] else
      var last := trace[|trace| - 1];
      var before := CallsOf(trace[..|trace| - 1], key);
      if last.Request? && NormalizeIp(last.ip) == key then before + [last.call] else before
  }

  /** The answers given to one key, in order. */
  function AnswersTo(answers: seq<Answer>, key: IpAddr): seq<bool> {
    if answers == [] then [] else
      var last := answers[|answers| - 1];
      var before := AnswersTo(answers[..|answers| - 1], key);
      if last.key == key then before + [last.ok] else before
  }

  /** The trace seen by one key: its own requests and every sweep. */
  function Project(trace: seq<Event>, key: IpAddr): seq<Event> {
    if trace == [] then [] else
      var last := trace[|trace| - 1];
      var before := Project(trace[..|trace| - 1], key);
      if last.Request? && NormalizeIp(last.ip) != key then before else before + [last]
  }

  /** The trace with no sweeps: a limiter that never evicts. */
  function WithoutSweeps(trace: seq<Event>): seq<Event> {
    if trace == [] then [] else
      var last := trace[|trace| - 1];
      var before := WithoutSweeps(trace[..|trace| - 1]);
      if last.Sweep? then before else before + [last]
  }

  lemma ExecuteSnoc(trace: seq<Event>, e: Event, maxAge: nat)
    ensures Execute(trace + [e], maxAge) == Step(Execute(trace, maxAge), e, maxAge)
  {
  }

  lemma AnswersToSnoc(answers: seq<Answer>, a: Answer, key: IpAddr)
    ensures AnswersTo(answers + [a], key)
         == if a.key == key then AnswersTo(answers, key) + [a.ok] else AnswersTo(answers, key)
  {
  }

  // ----- non-interference -----

  /** The answers given to one key in an interleaved trace are those of the trace projected to it:
      no other client can change them. */
  lemma {:induction false} NonInterference(trace: seq<Event>, key: IpAddr, maxAge: nat)
    ensures AnswersTo(Execute(trace, maxAge).answers, key)
         == AnswersTo(Execute(Project(trace, key), maxAge).answers, key)
    ensures |AnswersTo(Execute(trace, maxAge).answers, key)| == |CallsOf(trace, key)|
    ensures var full, alone := Execute(trace, maxAge).table, Execute(Project(trace, key), maxAge).table;
            (key in full <==> key in alone) && (key in full ==> full[key] == alone[key])
  {
    if trace != [] {
      var before, last := trace[..|trace| - 1], trace[|trace| - 1];
      NonInterference(before, key, maxAge);
      if !(last.Request? && NormalizeIp(last.ip) != key) {
        ExecuteSnoc(Project(before, key), last, maxAge);
      }
      if last.Request? {
        var r := Execute(before, maxAge);
        AnswersToSnoc(r.answers, Answer(NormalizeIp(last.ip), Check(r.table, last.ip, last.call).1), key);
        var p := Execute(Project(before, key), maxAge);
        AnswersToSnoc(p.answers, Answer(NormalizeIp(last.ip), Check(p.table, last.ip, last.call).1), key);
      }
    }
  }

  /** Without sweeps, the answers to a key are those of one bucket serving its calls. */
  lemma {:induction false} UnsweptIsGreedy(trace: seq<Event>, key: IpAddr, maxAge: nat)
    requires forall i :: 0 <= i < |trace| ==> trace[i].Request?
    ensures var r := Execute(trace, maxAge);
            var calls := CallsOf(trace, key);
            && AnswersTo(r.answers, key) == Greedy(calls)
            && (key in r.table <==> calls != [])
            && (key in r.table ==> r.table[key] == BucketAfter(calls))
  {
    if trace != [] {
      var before, last := trace[..|trace| - 1], trace[|trace| - 1];
      UnsweptIsGreedy(before, key, maxAge);
      var r := Execute(before, maxAge);
      AnswersToSnoc(r.answers, Answer(NormalizeIp(last.ip), Check(r.table, last.ip, last.call).1), key);
      if NormalizeIp(last.ip) == key {
        assert CallsOf(trace, key)[..|CallsOf(before, key)|] == CallsOf(before, key);
      }
    }
  }

  // ----- what a sweep drops -----

  predicate IsRequestOf(e: Event, key: IpAddr) {
    e.Request? && NormalizeIp(e.ip) == key
  }

  /** Event `i` is the last request of the key, and no sweep since then had a cutoff at or after it. */
  ghost predicate Survives(trace: seq<Event>, key: IpAddr, maxAge: nat, i: nat) {
    && i < |trace| && IsRequestOf(trace[i], key)
    && forall j :: i < j < |trace| ==>
         && !IsRequestOf(trace[j], key)
         && (trace[j].Sweep? && key in trace[j].shard ==> trace[j].readAt < trace[i].call.now + maxAge)
  }

  lemma SurvivesSnoc(trace: seq<Event>, e: Event, key: IpAddr, maxAge: nat, i: nat)
    requires i < |trace|
    ensures Survives(trace + [e], key, maxAge, i)
       <==> && Survives(trace, key, maxAge, i) && !IsRequestOf(e, key)
            && (e.Sweep? && key in e.shard ==> e.readAt < trace[i].call.now + maxAge)
  {
    var whole := trace + [e];
    assert forall j :: 0 <= j < |trace| ==> whole[j] == trace[j];
    assert whole[|trace|] == e;
  }

  lemma SurvivesLast(before: seq<Event>, e: Event, key: IpAddr, maxAge: nat)
    requires IsRequestOf(e, key)
    ensures forall i: nat :: Survives(before + [e], key, maxAge, i) <==> i == |before|
  {
    assert (before + [e])[|before|] == e;
  }

  lemma SurvivesOther(before: seq<Event>, e: Event, key: IpAddr, maxAge: nat)
    requires !IsRequestOf(e, key)
    ensures forall i: nat ::
              (Survives(before + [e], key, maxAge, i) <==>
                 && Survives(before, key, maxAge, i)
                 && (e.Sweep? && key in e.shard ==> e.readAt < before[i].call.now + maxAge))
  {
    forall i: nat
      ensures Survives(before + [e], key, maxAge, i)
         <==> && Survives(before, key, maxAge, i)
              && (e.Sweep? && key in e.shard ==> e.readAt < before[i].call.now + maxAge)
    {
      if i < |before| {
        SurvivesSnoc(before, e, key, maxAge, i);
      }
    }
  }

  lemma KeptAfter(r: Run, e: Event, maxAge: nat, key: IpAddr)
    ensures var t := Step(r, e, maxAge).table;
            if IsRequestOf(e, key) then key in t && t[key].lastAccess == e.call.now
            else && (key in t <==> && key in r.table
                                   && (e.Sweep? && key in e.shard ==> e.readAt < r.table[key].lastAccess + maxAge))
                 && (key in t ==> t[key] == r.table[key])
  {
  }

  /** The table holds exactly the keys whose last request no later sweep found too old, each last
      accessed at that request. */
  lemma {:induction false} KeptIffRecentlyUsed(trace: seq<Event>, key: IpAddr, maxAge: nat)
    ensures key in Execute(trace, maxAge).table <==> exists i: nat :: Survives(trace, key, maxAge, i)
    ensures forall i: nat :: Survives(trace, key, maxAge, i) ==>
              key in Execute(trace, maxAge).table && Execute(trace, maxAge).table[key].lastAccess == trace[i].call.now
  {
    hide Step;
    if trace != [] {
      var before, e := trace[..|trace| - 1], trace[|trace| - 1];
      assert trace == before + [e];
      KeptIffRecentlyUsed(before, key, maxAge);
      KeptAfter(Execute(before, maxAge), e, maxAge, key);
      if IsRequestOf(e, key) {
        SurvivesLast(before, e, key, maxAge);
        assert Survives(trace, key, maxAge, |before|);
      } else {
        SurvivesOther(before, e, key, maxAge);
        if key in Execute(trace, maxAge).table {
          var i: nat :| Survives(before, key, maxAge, i);
          assert Survives(trace, key, maxAge, i);
        }
      }
    }
  }
}
