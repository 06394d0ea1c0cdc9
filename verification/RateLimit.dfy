/** The process-wide token bucket (src/rate_limit.rs), in exact arithmetic.

    One token is `TOKEN` units and offsets are nanoseconds, so a bucket refilled at `r` requests
    per second gains `r` units per nanosecond. */
module RateLimit {
  import opened Prelude

  const MAX_REQUESTS_PER_SECOND: nat := 1_000_000
  const MAX_BURST: nat := 1_000_000
  const TOKEN: nat := 1_000_000_000
  const SECOND: nat := 1_000_000_000

  datatype PolicyError = InvalidRequestsPerSecond | InvalidBurst

  datatype Policy = Policy(requestsPerSecond: nat, burst: nat) {
    predicate Valid() {
      1 <= requestsPerSecond <= MAX_REQUESTS_PER_SECOND && 1 <= burst <= MAX_BURST
    }

    function Cap(): nat {
      burst * TOKEN
    }
  }

  /** Out-of-range rates are reported before out-of-range bursts. */
  function NewPolicy(requestsPerSecond: nat, burst: nat): (r: Result<Policy, PolicyError>)
    ensures r.Ok? <==> 1 <= requestsPerSecond <= 1_000_000 && 1 <= burst <= 1_000_000
    ensures r.Ok? ==> r.value == Policy(requestsPerSecond, burst) && r.value.Valid()
    ensures r.Err? ==> (r.error == InvalidRequestsPerSecond <==> !(1 <= requestsPerSecond <= 1_000_000))
  {
    if !(1 <= requestsPerSecond <= MAX_REQUESTS_PER_SECOND) then Err(InvalidRequestsPerSecond)
    else if !(1 <= burst <= MAX_BURST) then Err(InvalidBurst)
    else Ok(Policy(requestsPerSecond, burst))
  }

  datatype BucketState = BucketState(tokens: nat, lastRefill: nat)

  /** A full bucket at offset zero. */
  function FreshBucket(p: Policy): BucketState {
    BucketState(p.Cap(), 0)
  }

  /** `Duration::saturating_sub`. */
  function SaturatingSub(a: nat, b: nat): nat {
    if a < b then 0 else a - b
  }

  /** Continuous refill up to the cap; an offset behind `lastRefill` changes nothing. */
  function Refill(p: Policy, s: BucketState, now: nat): BucketState {
    if now <= s.lastRefill then s
    else BucketState(Min(s.tokens + p.requestsPerSecond * (now - s.lastRefill), p.Cap()), now)
  }

  predicate Admits(p: Policy, s: BucketState, now: nat) {
    TOKEN <= Refill(p, s, now).tokens
  }

  function Charge(s: BucketState, admitted: bool): BucketState
    requires admitted ==> TOKEN <= s.tokens
  {
    if admitted then s.(tokens := s.tokens - TOKEN) else s
  }

  /** The bucket after one admission decision at offset `now`. */
  function Step(p: Policy, s: BucketState, now: nat): BucketState {
    Charge(Refill(p, s, now), Admits(p, s, now))
  }

  class RateLimiter {
    const policy: Policy
    var bucket: BucketState

    ghost predicate Valid()
      reads this
    {
      policy.Valid() && bucket.tokens <= policy.Cap()
    }

    /** A full bucket whose last refill is offset zero. */
    constructor (policy: Policy)
      requires policy.Valid()
      ensures Valid() && this.policy == policy
      ensures bucket == FreshBucket(policy)
    {
      this.policy := policy;
      this.bucket := FreshBucket(policy);
    }

    /** One locked admission decision; a rejection carries the retry delay in whole seconds. */
    method CheckAt(now: nat) returns (r: Result<(), nat>)
      requires Valid()
      modifies this
      ensures Valid()
      ensures bucket == Step(policy, old(bucket), now)
      ensures r.Ok? <==> Admits(policy, old(bucket), now)
      ensures r.Err? ==> r.error == 1
    {
      var elapsed := SaturatingSub(now, bucket.lastRefill);
      if elapsed != 0 {
        var refilled := elapsed * policy.requestsPerSecond;
        bucket := BucketState(Min(bucket.tokens + refilled, policy.Cap()), now);
      }
      if TOKEN <= bucket.tokens {
        bucket := bucket.(tokens := bucket.tokens - TOKEN);
        return Ok(());
      }
      var missing := TOKEN - bucket.tokens;
      var retrySeconds := CeilDiv(missing, TOKEN * policy.requestsPerSecond);
      RejectionDelayIsOneSecond(policy, bucket.tokens);
      r := Err(if retrySeconds < 1 then 1 else retrySeconds);
    }
  }

  function CeilDiv(a: nat, b: nat): nat
    requires 0 < b
  {
    (a + b - 1) / b
  }

  /** Less than one token is ever missing and the rate is at least one token per second. */
  lemma RejectionDelayIsOneSecond(p: Policy, tokens: nat)
    requires p.Valid() && tokens < TOKEN
    ensures CeilDiv(TOKEN - tokens, TOKEN * p.requestsPerSecond) == 1
  {
    var b := TOKEN * p.requestsPerSecond;
    var x := TOKEN - tokens + b - 1;
    assert TOKEN <= b;
    QuotientOne(x, b);
  }

  lemma QuotientOne(x: nat, b: nat)
    requires 0 < b <= x < 2 * b
    ensures x / b == 1
  {
    Multiple(b, x / b);
    assert x == b * (x / b) + x % b;
  }

  lemma Multiple(b: nat, q: int)
    ensures q <= 0 ==> b * q <= 0
    ensures 2 <= q ==> 2 * b <= b * q
  {
  }
}
