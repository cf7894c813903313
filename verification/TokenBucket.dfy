/** The per-client token bucket of src/rate_limit/bucket.rs.

    Token counts are integers in units of 1e-9 token and instants are nanoseconds, so a refill of
    `elapsed_ns * rate` is exact: the rate and the burst are `u32` in the source. */
module TokenBuckets {

  /** One whole token. */
  const TOKEN: nat := 1_000_000_000

  /** What one request brings to its bucket: the clock reading and the configuration in force. */
  datatype Call = Call(now: nat, rate: nat, burst: nat)

  datatype Bucket = Bucket(tokens: nat, lastRefill: nat, rate: nat, max: nat, lastAccess: nat)

  function Min(a: int, b: int): int {
    if a <= b then a else b
  }

  /** `Instant::duration_since`, which saturates at zero. */
  function Elapsed(since: nat, now: nat): nat {
    if since <= now then now - since else 0
  }

  /** A new bucket starts full. */
  function Full(c: Call): Bucket {
    Bucket(c.burst * TOKEN, c.now, c.rate, c.burst, c.now)
  }

  function Refill(b: Bucket, c: Call): Bucket {
    var capped := Min(b.tokens + Elapsed(b.lastRefill, c.now) * c.rate, c.burst * TOKEN);
    var tokens := if c.burst < b.max then Min(capped, c.burst * TOKEN) else capped;
    b.(tokens := tokens, lastRefill := c.now, rate := c.rate, max := c.burst)
  }

  /** The bucket after a request, and whether the request is admitted. */
  function TryConsume(b: Bucket, c: Call): (Bucket, bool) {
    var r := Refill(b, c).(lastAccess := c.now);
    if r.tokens >= TOKEN then (r.(tokens := r.tokens - TOKEN), true) else (r, false)
  }

  /** Whatever the bucket held before, a call leaves it between empty and the burst now in force,
      admits exactly when the refilled level holds a whole token, and takes exactly that token. */
  lemma TryConsumeKeepsCapacity(b: Bucket, c: Call)
    ensures var (b', ok) := TryConsume(b, c);
            var available := Min(b.tokens + Elapsed(b.lastRefill, c.now) * c.rate, c.burst * TOKEN);
            && b'.tokens <= c.burst * TOKEN
            && (ok <==> TOKEN <= available)
            && b'.tokens + (if ok then TOKEN else 0) == available
  {
  }

  class TokenBucket {
    var tokens: nat
    var lastRefill: nat
    var rate: nat
    var max: nat
    var lastAccess: nat

    ghost function Value(): Bucket
      reads this
    {
      Bucket(tokens, lastRefill, rate, max, lastAccess)
    }

    constructor (c: Call)
      ensures Value() == Full(c)
    {
      tokens := c.burst * TOKEN;
      lastRefill := c.now;
      rate := c.rate;
      max := c.burst;
      lastAccess := c.now;
    }

    method RefillTokens(c: Call)
      modifies this
      ensures Value() == Refill(old(Value()), c)
      ensures rate == c.rate && max == c.burst && lastRefill == c.now && lastAccess == old(lastAccess)
    {
      tokens := Min(tokens + Elapsed(lastRefill, c.now) * c.rate, c.burst * TOKEN);
      lastRefill := c.now;
      if c.burst < max {
        tokens := Min(tokens, c.burst * TOKEN);
      }
      max := c.burst;
      rate := c.rate;
    }

    method Consume(c: Call) returns (ok: bool)
      modifies this
      ensures (Value(), ok) == TryConsume(old(Value()), c)
      ensures tokens <= max * TOKEN && max == c.burst && rate == c.rate && lastRefill == lastAccess == c.now
    {
      RefillTokens(c);
      lastAccess := c.now;
      if tokens >= TOKEN {
        tokens := tokens - TOKEN;
        ok := true;
      } else {
        ok := false;
      }
    }
  }
}
