/** The in-memory token-bucket rate limiter, keyed by client address. Time is passed in as the
    reading of a monotonic clock, and token amounts are exact reals. */
module RateLimit {
  import opened Common

  /** A client's bucket: the tokens left and the clock reading of its last request. */
  datatype Bucket = Bucket(tokens: real, last: real)

  function Min(a: real, b: real): real { if a <= b then a else b }

  /** The tokens available at `now`: the stored ones plus `refillRate` per elapsed second, never
      more than `capacity`. */
  function Refilled(b: Bucket, now: real, capacity: real, refillRate: real): (t: real)
    ensures t <= capacity
    ensures t == capacity || t == b.tokens + (now - b.last) * refillRate
    ensures b.tokens <= capacity && b.last <= now && refillRate >= 0.0 ==> b.tokens <= t
  {
    Min(capacity, b.tokens + (now - b.last) * refillRate)
  }

  /** One decision: allowed iff at least one token is available at `now`; an allowed request
      spends it. Either way the bucket now holds the refilled amount (less the spent token) and
      `now`. */
  function Decide(b: Bucket, now: real, capacity: real, refillRate: real): (r: (bool, Bucket))
    ensures r.0 <==> Refilled(b, now, capacity, refillRate) >= 1.0
    ensures r.1.last == now
    ensures r.1.tokens == Refilled(b, now, capacity, refillRate) - (if r.0 then 1.0 else 0.0)
  {
    var tokens := Refilled(b, now, capacity, refillRate);
    if tokens >= 1.0 then (true, Bucket(tokens - 1.0, now)) else (false, Bucket(tokens, now))
  }

  /** A bucket whose tokens lie in `[0, capacity]` still does after a decision at a later or
      equal time, for a non-negative refill rate. */
  lemma DecideInRange(b: Bucket, now: real, capacity: real, refillRate: real)
    requires 0.0 <= b.tokens <= capacity && b.last <= now && refillRate >= 0.0
    ensures var r := Decide(b, now, capacity, refillRate);
      0.0 <= r.1.tokens <= capacity
  {
    assert (now - b.last) * refillRate >= 0.0;
  }

  /** The answers to `count` requests made at the same instant. */
  function Burst(b: Bucket, now: real, capacity: real, refillRate: real, count: nat): seq<bool>
    decreases count
  {
    if count == 0 then []
    else
      var r := Decide(b, now, capacity, refillRate);
      [r.0] + Burst(r.1, now, capacity, refillRate, count - 1)
  }

  /** `n` copies of `true`. */
  function Trues(n: nat): (r: seq<bool>)
    ensures |r| == n && forall i :: 0 <= i < n ==> r[i]
  {
    seq(n, i => true)
  }

  /** With `k` whole tokens and no time passing, exactly `k` requests are allowed and the next
      one is denied. */
  lemma {:induction false} BurstFromTokens(k: nat, now: real, capacity: real, refillRate: real)
    requires k as real <= capacity
    ensures Burst(Bucket(k as real, now), now, capacity, refillRate, k + 1) == Trues(k) + [false]
    decreases k
  {
    var b := Bucket(k as real, now);
    assert (now - now) * refillRate == 0.0;
    assert Refilled(b, now, capacity, refillRate) == k as real;
    if k > 0 {
      BurstFromTokens(k - 1, now, capacity, refillRate);
      assert Decide(b, now, capacity, refillRate).1 == Bucket((k - 1) as real, now);
      assert Trues(k) == [true] + Trues(k - 1);
    }
  }

  /** The limiter: the configured capacity and refill rate and the table of buckets. */
  class RateLimiter {
    const capacity: int
    const refillRate: real
    var buckets: map<string, Bucket>

    /** A limiter with no buckets yet. */
    constructor (capacity: int, refillRate: real)
      ensures this.capacity == capacity && this.refillRate == refillRate
      ensures buckets == map[]
    {
      this.capacity := capacity;
      this.refillRate := refillRate;
      buckets := map[];
    }

    /** The bucket of `key`, or the full bucket a new key starts with at `now`. */
    function BucketAt(key: string, now: real): Bucket
      reads this
    {
      if key in buckets then buckets[key] else Bucket(capacity as real, now)
    }

    /** Every bucket's tokens lie in `[0, capacity]`. */
    predicate InRange()
      reads this
    {
      forall k | k in buckets :: 0.0 <= buckets[k].tokens <= capacity as real
    }

    /** No bucket was touched after `now`. */
    predicate NotAfter(now: real)
      reads this
    {
      forall k | k in buckets :: buckets[k].last <= now
    }

    /** `allow(key)` at clock reading `now`: decides on the key's bucket (a new key starts full)
        and stores the bucket the decision leaves; no other key's bucket changes. */
    method Allow(key: string, now: real) returns (allowed: bool)
      modifies this
      ensures key in buckets
      ensures (allowed, buckets[key]) == Decide(old(BucketAt(key, now)), now, capacity as real, refillRate)
      ensures buckets == old(buckets)[key := buckets[key]]
      ensures old(InRange()) && old(NotAfter(now)) && capacity >= 0 && refillRate >= 0.0 ==> InRange()
      ensures old(NotAfter(now)) ==> NotAfter(now)
    {
      var b := BucketAt(key, now);
      var tokens := Min(capacity as real, b.tokens + (now - b.last) * refillRate);
      assert tokens == Refilled(b, now, capacity as real, refillRate);
      if tokens >= 1.0 {
        buckets := buckets[key := Bucket(tokens - 1.0, now)];
        allowed := true;
      } else {
        buckets := buckets[key := Bucket(tokens, now)];
        allowed := false;
      }
      if old(InRange()) && old(NotAfter(now)) && capacity >= 0 && refillRate >= 0.0 {
        DecideInRange(b, now, capacity as real, refillRate);
      }
    }

    /** `reset`: forgets every bucket. */
    method Reset()
      modifies this
      ensures buckets == map[]
    {
      buckets := map[];
    }
  }

  /** The defaults of the shared limiter: 60 requests of burst, one more per second. */
  const DefaultCapacity: int := 60
  const DefaultRefillRate: real := 1.0

  /** An error response: status code and message. */
  datatype Rejection = Rejection(status: int, detail: string)

  /** `check_rate_limit`: requests are keyed by client address, or "unknown" when there is none;
      a denied request is rejected with 429. */
  method CheckRateLimit(limiter: RateLimiter, clientHost: Option<string>, now: real)
    returns (rejection: Option<Rejection>)
    modifies limiter
    ensures var key := clientHost.GetOr("unknown");
      var d := Decide(old(limiter.BucketAt(key, now)), now, limiter.capacity as real, limiter.refillRate);
      && limiter.buckets == old(limiter.buckets)[key := d.1]
      && (rejection.None? <==> d.0)
      && (rejection.Some? ==> rejection.value == Rejection(429, "Rate limit exceeded"))
  {
    var key := clientHost.GetOr("unknown");
    var allowed := limiter.Allow(key, now);
    if !allowed {
      return Some(Rejection(429, "Rate limit exceeded"));
    }
    return None;
  }
}
