/** Theorems about whole runs of the token bucket. A run is an arbitrary sequence of offsets: the
    clock is read before the lock is taken (src/rate_limit.rs:113-126), so concurrent callers can
    reach the bucket out of order and nothing here assumes that offsets are nondecreasing. */
module RateLimitRuns {
  import opened Prelude
  import opened RateLimit

  /** The bucket after the calls at `offsets`, in order. */
  function After(p: Policy, s: BucketState, offsets: seq<nat>): BucketState
    decreases |offsets|
  {
    if offsets == [] then s else After(p, Step(p, s, offsets[0]), offsets[1..])
  }

  /** The admission decisions of the calls at `offsets`. */
  function Decisions(p: Policy, s: BucketState, offsets: seq<nat>): (d: seq<bool>)
    ensures |d| == |offsets|
    decreases |offsets|
  {
    if offsets == [] then []
    else [Admits(p, s, offsets[0])] + Decisions(p, Step(p, s, offsets[0]), offsets[1..])
  }

  function CountTrue(d: seq<bool>): nat {
    if d == [] then 0 else (if d[0] then 1 else 0) + CountTrue(d[1..])
  }

  function Admitted(p: Policy, s: BucketState, offsets: seq<nat>): nat {
    CountTrue(Decisions(p, s, offsets))
  }

  function Max(a: nat, b: nat): nat {
    if a < b then b else a
  }

  function RunningMax(start: nat, offsets: seq<nat>): nat
    decreases |offsets|
  {
    if offsets == [] then start else RunningMax(Max(start, offsets[0]), offsets[1..])
  }

  /** Units that refilled above the cap and were lost. */
  function Spilled(p: Policy, s: BucketState, offsets: seq<nat>): nat
    decreases |offsets|
  {
    if offsets == [] then 0
    else
      var raw := s.tokens + p.requestsPerSecond * SaturatingSub(offsets[0], s.lastRefill);
      SaturatingSub(raw, p.Cap()) + Spilled(p, Step(p, s, offsets[0]), offsets[1..])
  }

  lemma StepConservesTokens(p: Policy, s: BucketState, now: nat)
    requires p.Valid() && s.tokens <= p.Cap()
    ensures var e := Step(p, s, now);
            var gain := p.requestsPerSecond * SaturatingSub(now, s.lastRefill);
            && e.tokens <= p.Cap()
            && e.lastRefill == Max(s.lastRefill, now)
            && s.tokens + p.requestsPerSecond * (e.lastRefill - s.lastRefill)
               == e.tokens + (if Admits(p, s, now) then TOKEN else 0) + SaturatingSub(s.tokens + gain, p.Cap())
  {
  }

  /** In every run the balance stays within the burst, `lastRefill` is the running maximum of the
      offsets, and units are conserved: what the bucket held plus what refilled is what it holds
      now, what it admitted and what spilled over the cap. */
  lemma {:induction false} RunConservesTokens(p: Policy, s: BucketState, offsets: seq<nat>)
    requires p.Valid() && s.tokens <= p.Cap()
    ensures var e := After(p, s, offsets);
            && e.tokens <= p.Cap()
            && e.lastRefill == RunningMax(s.lastRefill, offsets)
            && s.lastRefill <= e.lastRefill
            && s.tokens + p.requestsPerSecond * (e.lastRefill - s.lastRefill)
               == e.tokens + TOKEN * Admitted(p, s, offsets) + Spilled(p, s, offsets)
    decreases |offsets|
  {
    if offsets != [] {
      hide Step, Refill, Admits, SaturatingSub;
      var now := offsets[0];
      var m := Step(p, s, now);
      StepConservesTokens(p, s, now);
      RunConservesTokens(p, m, offsets[1..]);
      assert Decisions(p, s, offsets)[1..] == Decisions(p, m, offsets[1..]);
      var e := After(p, s, offsets);
      Distribute(p.requestsPerSecond, m.lastRefill - s.lastRefill, e.lastRefill - m.lastRefill);
    }
  }

  lemma Distribute(r: nat, a: nat, b: nat)
    ensures r * (a + b) == r * a + r * b
  {
  }

  /** Running a concatenation is running the pieces: every window of a run is itself a run. */
  lemma {:induction false} RunConcat(p: Policy, s: BucketState, a: seq<nat>, b: seq<nat>)
    ensures After(p, s, a + b) == After(p, After(p, s, a), b)
    ensures Decisions(p, s, a + b) == Decisions(p, s, a) + Decisions(p, After(p, s, a), b)
    decreases |a|
  {
    if a == [] {
      assert a + b == b;
    } else {
      assert (a + b)[1..] == a[1..] + b;
      RunConcat(p, Step(p, s, a[0]), a[1..], b);
    }
  }

  /** Whatever came before, a window of calls admits at most the burst plus the refill of the time
      by which the window advanced the clock; an offset of 10^9 is one second. */
  lemma WindowAdmissionBound(p: Policy, s: BucketState, before: seq<nat>, window: seq<nat>)
    requires p.Valid() && s.tokens <= p.Cap()
    ensures var b := After(p, s, before);
            var e := After(p, s, before + window);
            var elapsed := e.lastRefill - b.lastRefill;
            && CountTrue(Decisions(p, s, before + window)[|before|..]) == Admitted(p, b, window)
            && TOKEN * Admitted(p, b, window) <= b.tokens + p.requestsPerSecond * elapsed
            && 1_000_000_000 * Admitted(p, b, window) <= 1_000_000_000 * p.burst + p.requestsPerSecond * elapsed
  {
    RunConcat(p, s, before, window);
    RunConservesTokens(p, s, before);
    var b := After(p, s, before);
    RunConservesTokens(p, b, window);
    assert Decisions(p, s, before + window)[|before|..] == Decisions(p, b, window);
  }

  // ----- What is always admitted -----

  /** As long as there is a token left for each, calls are admitted, whatever their offsets. */
  lemma {:induction false} TokensSuffice(p: Policy, s: BucketState, offsets: seq<nat>)
    requires p.Valid() && s.tokens <= p.Cap() && TOKEN * |offsets| <= s.tokens
    ensures Admitted(p, s, offsets) == |offsets|
    decreases |offsets|
  {
    if offsets != [] {
      var next := Step(p, s, offsets[0]);
      RefillGrows(p, s, 0, offsets[0]);
      assert TOKEN * |offsets[1..]| == TOKEN * |offsets| - TOKEN;
      TokensSuffice(p, next, offsets[1..]);
      assert Decisions(p, s, offsets)[1..] == Decisions(p, next, offsets[1..]);
    }
  }

  /** A new limiter admits its first `burst` calls, whatever their offsets, and of any number of calls
      at one moment exactly `burst`. */
  lemma FreshBucketAdmitsBurst(p: Policy, offsets: seq<nat>, now: nat, calls: nat)
    requires p.Valid()
    ensures |offsets| <= p.burst ==> Admitted(p, FreshBucket(p), offsets) == |offsets|
    ensures Admitted(p, FreshBucket(p), seq(calls, _ => now)) == Min(calls, p.burst)
  {
    if |offsets| <= p.burst {
      TokensSuffice(p, FreshBucket(p), offsets);
    }
    FullBucketAtOnce(p, FreshBucket(p), now, calls);
  }

  /** Once a bucket has been idle for long enough to fill up, it admits a full burst again: `idle`
      offsets of 10^-9 seconds at the configured rate are worth `burst` tokens. */
  lemma IdleBucketAdmitsBurst(p: Policy, s: BucketState, idle: nat, calls: nat)
    requires p.Valid() && s.tokens <= p.Cap()
    requires 1_000_000_000 * p.burst <= p.requestsPerSecond * idle
    ensures Admitted(p, s, seq(calls, _ => s.lastRefill + idle)) == Min(calls, p.burst)
  {
    var now := s.lastRefill + idle;
    var full := Refill(p, s, now);
    assert full.tokens == p.Cap();
    RefilledFirst(p, s, now, seq(calls, _ => now));
    FullBucketAtOnce(p, full, now, calls);
  }

  lemma RefilledFirst(p: Policy, s: BucketState, now: nat, offsets: seq<nat>)
    requires offsets != [] ==> offsets[0] == now
    ensures Decisions(p, s, offsets) == Decisions(p, Refill(p, s, now), offsets)
  {
    RefillComposes(p, s, now, now);
  }

  /** A full bucket admits of any number of calls at one moment exactly `burst`. */
  lemma FullBucketAtOnce(p: Policy, s: BucketState, now: nat, calls: nat)
    requires p.Valid() && s.tokens == p.Cap()
    ensures Admitted(p, s, seq(calls, _ => now)) == Min(calls, p.burst)
  {
    RefillGrows(p, s, 0, now);
    RefilledFirst(p, s, now, seq(calls, _ => now));
    WholeTokensAtOnce(p, Refill(p, s, now), now, p.burst, calls);
  }

  lemma {:induction false} WholeTokensAtOnce(p: Policy, s: BucketState, now: nat, whole: nat, calls: nat)
    requires p.Valid() && s.tokens == TOKEN * whole && now <= s.lastRefill
    ensures Admitted(p, s, seq(calls, _ => now)) == Min(calls, whole)
    decreases calls
  {
    if calls != 0 {
      var offsets := seq(calls, _ => now);
      var next := Step(p, s, now);
      assert offsets[1..] == seq(calls - 1, _ => now);
      assert Decisions(p, s, offsets)[1..] == Decisions(p, next, offsets[1..]);
      WholeTokensAtOnce(p, next, now, if whole == 0 then 0 else whole - 1, calls - 1);
    }
  }

  /** Successive calls are apart by at least the time one token takes to refill. */
  predicate Steady(p: Policy, start: nat, offsets: seq<nat>)
    decreases |offsets|
  {
    offsets == [] ||
    (&& start <= offsets[0] && 1_000_000_000 <= p.requestsPerSecond * (offsets[0] - start)
     && Steady(p, offsets[0], offsets[1..]))
  }

  /** A client that keeps to the configured rate is never rejected, even by an empty bucket. */
  lemma {:induction false} SteadyCallsAreAdmitted(p: Policy, s: BucketState, offsets: seq<nat>)
    requires p.Valid() && s.tokens <= p.Cap() && Steady(p, s.lastRefill, offsets)
    ensures Admitted(p, s, offsets) == |offsets|
    decreases |offsets|
  {
    if offsets != [] {
      var next := Step(p, s, offsets[0]);
      assert TOKEN <= p.Cap();
      assert s.lastRefill < offsets[0];
      SteadyCallsAreAdmitted(p, next, offsets[1..]);
      assert Decisions(p, s, offsets)[1..] == Decisions(p, next, offsets[1..]);
    }
  }

  // ----- Greedy optimality -----

  /** `choices` is a policy that only ever spends a token the shared refill and cap provide. */
  predicate Affordable(p: Policy, s: BucketState, offsets: seq<nat>, choices: seq<bool>)
    requires |choices| == |offsets|
    decreases |offsets|
  {
    offsets == [] ||
    (var r := Refill(p, s, offsets[0]);
     (choices[0] ==> TOKEN <= r.tokens) &&
     Affordable(p, Charge(r, choices[0]), offsets[1..], choices[1..]))
  }

  /** The bucket's own decisions are such a policy. */
  lemma {:induction false} DecisionsAreAffordable(p: Policy, s: BucketState, offsets: seq<nat>)
    ensures Affordable(p, s, offsets, Decisions(p, s, offsets))
    decreases |offsets|
  {
    if offsets != [] {
      assert Decisions(p, s, offsets)[1..] == Decisions(p, Step(p, s, offsets[0]), offsets[1..]);
      DecisionsAreAffordable(p, Step(p, s, offsets[0]), offsets[1..]);
    }
  }

  /** `lead` is how many more calls the bucket has admitted than the alternative so far; the
      alternative's saved-up units never outweigh that lead. */
  lemma {:induction false} GreedyKeepsItsLead(
    p: Policy, greedy: BucketState, alt: BucketState, lead: nat, offsets: seq<nat>, choices: seq<bool>)
    requires p.Valid() && |choices| == |offsets|
    requires greedy.tokens <= p.Cap() && alt.tokens <= p.Cap() && alt.lastRefill == greedy.lastRefill
    requires alt.tokens <= greedy.tokens + TOKEN * lead
    requires Affordable(p, alt, offsets, choices)
    ensures CountTrue(choices) <= lead + Admitted(p, greedy, offsets)
    decreases |offsets|
  {
    if offsets != [] {
      var now := offsets[0];
      var g, a := Refill(p, greedy, now), Refill(p, alt, now);
      assert a.tokens <= g.tokens + TOKEN * lead;
      var won := if Admits(p, greedy, now) then 1 else 0;
      var taken := if choices[0] then 1 else 0;
      assert 0 <= lead + won - taken;
      assert Decisions(p, greedy, offsets)[1..] == Decisions(p, Step(p, greedy, now), offsets[1..]);
      GreedyKeepsItsLead(
        p, Step(p, greedy, now), Charge(a, choices[0]), lead + won - taken, offsets[1..], choices[1..]);
    }
  }

  lemma {:induction false} AffordablePrefix(p: Policy, s: BucketState, offsets: seq<nat>, choices: seq<bool>, n: nat)
    requires |choices| == |offsets| && n <= |offsets|
    requires Affordable(p, s, offsets, choices)
    ensures Affordable(p, s, offsets[..n], choices[..n])
    decreases |offsets|
  {
    if n != 0 {
      assert offsets[..n][1..] == offsets[1..][..n - 1];
      assert choices[..n][1..] == choices[1..][..n - 1];
      AffordablePrefix(p, Charge(Refill(p, s, offsets[0]), choices[0]), offsets[1..], choices[1..], n - 1);
    }
  }

  lemma DecisionsPrefix(p: Policy, s: BucketState, offsets: seq<nat>, n: nat)
    requires n <= |offsets|
    ensures Decisions(p, s, offsets[..n]) == Decisions(p, s, offsets)[..n]
  {
    RunConcat(p, s, offsets[..n], offsets[n..]);
    assert offsets[..n] + offsets[n..] == offsets;
  }

  /** No policy that spends from the same refill and cap has admitted more calls than the bucket at
      any point of any run. */
  lemma GreedyIsOptimal(p: Policy, s: BucketState, offsets: seq<nat>, choices: seq<bool>, n: nat)
    requires p.Valid() && s.tokens <= p.Cap()
    requires |choices| == |offsets| && n <= |offsets|
    requires Affordable(p, s, offsets, choices)
    ensures CountTrue(choices[..n]) <= CountTrue(Decisions(p, s, offsets)[..n])
  {
    AffordablePrefix(p, s, offsets, choices, n);
    DecisionsPrefix(p, s, offsets, n);
    GreedyKeepsItsLead(p, s, s, 0, offsets[..n], choices[..n]);
  }

  // ----- Rejected calls leave no trace -----

  /** Capped refill composes: stopping to refill at an intermediate moment changes nothing. */
  lemma RefillComposes(p: Policy, s: BucketState, a: nat, b: nat)
    requires a <= b
    ensures Refill(p, Refill(p, s, a), b) == Refill(p, s, b)
  {
    if s.lastRefill < a < b {
      Distribute(p.requestsPerSecond, a - s.lastRefill, b - a);
    }
  }

  lemma RefillGrows(p: Policy, s: BucketState, a: nat, b: nat)
    requires a <= b && s.tokens <= p.Cap()
    ensures Refill(p, s, a).tokens <= Refill(p, s, b).tokens <= p.Cap()
  {
    if s.lastRefill < a {
      Distribute(p.requestsPerSecond, a - s.lastRefill, b - a);
    }
  }

  /** `polled` is `quiet` after some rejected calls: it is the same bucket, refilled to a later
      moment at which it still held less than one token. */
  predicate SameUpToPolling(p: Policy, quiet: BucketState, polled: BucketState) {
    && quiet.tokens <= p.Cap()
    && (polled == quiet ||
        (quiet.lastRefill < polled.lastRefill &&
         polled == Refill(p, quiet, polled.lastRefill) &&
         polled.tokens < TOKEN))
  }

  lemma PollingIsInvisible(p: Policy, quiet: BucketState, polled: BucketState, now: nat)
    requires p.Valid() && SameUpToPolling(p, quiet, polled)
    ensures Admits(p, quiet, now) == Admits(p, polled, now)
    ensures SameUpToPolling(p, Step(p, quiet, now), Step(p, polled, now))
  {
    RefillGrows(p, quiet, now, now);
    if polled != quiet {
      var m := polled.lastRefill;
      if now <= m {
        assert Refill(p, polled, now) == polled;
        RefillGrows(p, quiet, now, m);
        RefillComposes(p, quiet, now, m);
      } else {
        RefillComposes(p, quiet, m, now);
      }
    }
  }

  lemma {:induction false} PollingIsInvisibleInRuns(
    p: Policy, quiet: BucketState, polled: BucketState, offsets: seq<nat>)
    requires p.Valid() && SameUpToPolling(p, quiet, polled)
    ensures Decisions(p, quiet, offsets) == Decisions(p, polled, offsets)
    decreases |offsets|
  {
    if offsets != [] {
      PollingIsInvisible(p, quiet, polled, offsets[0]);
      PollingIsInvisibleInRuns(p, Step(p, quiet, offsets[0]), Step(p, polled, offsets[0]), offsets[1..]);
    }
  }

  lemma RejectionIsPolling(p: Policy, s: BucketState, now: nat)
    requires p.Valid() && s.tokens <= p.Cap() && !Admits(p, s, now)
    ensures SameUpToPolling(p, s, Step(p, s, now))
  {
  }

  lemma FirstDecision(p: Policy, s: BucketState, now: nat, rest: seq<nat>)
    ensures Decisions(p, s, [now] + rest) == [Admits(p, s, now)] + Decisions(p, Step(p, s, now), rest)
  {
    assert ([now] + rest)[1..] == rest;
  }

  /** Deleting a rejected call changes no other decision, whatever the order of the offsets. */
  lemma RejectedCallIsTransparent(p: Policy, s: BucketState, before: seq<nat>, now: nat, rest: seq<nat>)
    requires p.Valid() && s.tokens <= p.Cap() && !Admits(p, After(p, s, before), now)
    ensures Decisions(p, s, before + [now] + rest)
            == Decisions(p, s, before) + [false] + Decisions(p, s, before + rest)[|before|..]
  {
    hide Refill, Admits, SameUpToPolling, Spilled, RunningMax, After, Decisions, Step;
    var b := After(p, s, before);
    assert before + [now] + rest == before + ([now] + rest);
    RunConcat(p, s, before, [now] + rest);
    RunConcat(p, s, before, rest);
    RunConservesTokens(p, s, before);
    RejectionIsPolling(p, b, now);
    PollingIsInvisibleInRuns(p, b, Step(p, b, now), rest);
    FirstDecision(p, b, now, rest);
  }

  /** The offsets of the calls that were admitted. */
  function AdmittedOffsets(p: Policy, s: BucketState, offsets: seq<nat>): seq<nat>
    decreases |offsets|
  {
    if offsets == [] then []
    else
      (if Admits(p, s, offsets[0]) then [offsets[0]] else [])
      + AdmittedOffsets(p, Step(p, s, offsets[0]), offsets[1..])
  }

  /** Deleting all rejected calls at once leaves a run in which every call is admitted. */
  lemma {:induction false} AdmittedCallsStandAlone(
    p: Policy, quiet: BucketState, polled: BucketState, offsets: seq<nat>)
    requires p.Valid() && SameUpToPolling(p, quiet, polled)
    ensures var kept := AdmittedOffsets(p, polled, offsets);
            && |kept| == Admitted(p, polled, offsets)
            && Admitted(p, quiet, kept) == |kept|
    decreases |offsets|
  {
    if offsets != [] {
      var now := offsets[0];
      var next := Step(p, polled, now);
      assert Decisions(p, polled, offsets)[1..] == Decisions(p, next, offsets[1..]);
      PollingIsInvisible(p, quiet, polled, now);
      if Admits(p, polled, now) {
        AdmittedCallsStandAlone(p, Step(p, quiet, now), next, offsets[1..]);
        var kept := AdmittedOffsets(p, polled, offsets);
        assert kept[1..] == AdmittedOffsets(p, next, offsets[1..]);
        assert Decisions(p, quiet, kept)[1..] == Decisions(p, Step(p, quiet, now), kept[1..]);
      } else {
        RejectionExtendsPolling(p, quiet, polled, now);
        AdmittedCallsStandAlone(p, quiet, next, offsets[1..]);
        assert AdmittedOffsets(p, polled, offsets) == AdmittedOffsets(p, next, offsets[1..]);
      }
    }
  }

  lemma RejectionExtendsPolling(p: Policy, quiet: BucketState, polled: BucketState, now: nat)
    requires p.Valid() && SameUpToPolling(p, quiet, polled) && !Admits(p, polled, now)
    ensures SameUpToPolling(p, quiet, Step(p, polled, now))
  {
    if polled.lastRefill < now {
      RefillGrows(p, quiet, polled.lastRefill, now);
      RefillComposes(p, quiet, polled.lastRefill, now);
    }
  }

  // ----- Retrying after the advertised delay -----

  lemma {:induction false} RunningMaxCovers(start: nat, offsets: seq<nat>, bound: nat)
    requires start <= bound && forall t <- offsets :: t <= bound
    ensures start <= RunningMax(start, offsets) <= bound
    decreases |offsets|
  {
    if offsets != [] {
      assert offsets[0] in offsets && forall t <- offsets[1..] :: t in offsets;
      RunningMaxCovers(Max(start, offsets[0]), offsets[1..], bound);
    }
  }

  /** A bucket that only refills never gets ahead of one that also spends by more than the tokens the
      other one spent. */
  lemma {:induction false} IdleKeepsNoMore(p: Policy, idle: BucketState, s: BucketState, spent: nat, offsets: seq<nat>)
    requires p.Valid() && idle.lastRefill == s.lastRefill
    requires s.tokens <= p.Cap() && idle.tokens <= p.Cap() && idle.tokens <= s.tokens + TOKEN * spent
    ensures var e := After(p, s, offsets);
            Refill(p, idle, e.lastRefill).tokens <= e.tokens + TOKEN * (spent + Admitted(p, s, offsets))
    decreases |offsets|
  {
    if offsets != [] {
      var now := offsets[0];
      var next, idleNext := Step(p, s, now), Refill(p, idle, now);
      var won := if Admits(p, s, now) then 1 else 0;
      StepConservesTokens(p, s, now);
      assert idleNext.tokens <= next.tokens + TOKEN * (spent + won);
      assert Decisions(p, s, offsets)[1..] == Decisions(p, next, offsets[1..]);
      IdleKeepsNoMore(p, idleNext, next, spent + won, offsets[1..]);
      RunConservesTokens(p, next, offsets[1..]);
      if idle.lastRefill < now {
        RefillComposes(p, idle, now, After(p, s, offsets).lastRefill);
      }
    }
  }

  lemma RefillReaches(p: Policy, s: BucketState, t: nat)
    requires s.tokens <= p.Cap()
    ensures var r := Refill(p, s, t);
            r.lastRefill == Max(s.lastRefill, t) && r.tokens <= p.Cap() && (t <= s.lastRefill ==> r == s)
  {
  }

  /** Refilling both to the same moment keeps that relation. */
  lemma RefillKeepsNoMore(p: Policy, idle: BucketState, s: BucketState, spent: nat, t: nat)
    requires idle.tokens <= p.Cap() && idle.lastRefill == s.lastRefill && idle.tokens <= s.tokens + TOKEN * spent
    ensures Refill(p, idle, t).tokens <= Refill(p, s, t).tokens + TOKEN * spent
  {
  }

  /** A second or more refills a second's tokens, capped by the burst. */
  lemma SecondEarns(p: Policy, s: BucketState, t: nat)
    requires p.Valid() && s.tokens <= p.Cap() && s.lastRefill + SECOND <= t
    ensures TOKEN * Min(p.requestsPerSecond, p.burst) <= Refill(p, s, t).tokens
  {
    var r, d := p.requestsPerSecond, t - s.lastRefill;
    Scale(r, SECOND, d);
    Scale(TOKEN, Min(r, p.burst), r);
    Scale(TOKEN, Min(r, p.burst), p.burst);
  }

  lemma Scale(k: nat, a: nat, b: nat)
    requires a <= b
    ensures k * a <= k * b && k * a == a * k
  {
  }

  lemma EnoughLeft(p: Policy, e: BucketState, m: BucketState, taken: nat, between: seq<nat>, t: nat)
    requires p.Valid() && e.tokens <= p.Cap() && e.lastRefill + SECOND <= t
    requires m == After(p, e, between) && taken == Admitted(p, e, between)
    ensures taken < Min(p.requestsPerSecond, p.burst) ==> Admits(p, m, t)
  {
    hide After, Decisions, Refill, RunningMax, Spilled;
    RunConservesTokens(p, e, between);
    var idle := Refill(p, e, m.lastRefill);
    IdleKeepsNoMore(p, e, e, 0, between);
    RefillReaches(p, e, m.lastRefill);
    RefillReaches(p, m, t);
    if m.lastRefill < t {
      RefillKeepsNoMore(p, idle, m, taken, t);
      RefillComposes(p, e, m.lastRefill, t);
      SecondEarns(p, e, t);
    } else {
      SecondEarns(p, e, m.lastRefill);
    }
    var sufficient := Min(p.requestsPerSecond, p.burst);
    if taken < sufficient {
      Scale(TOKEN, taken + 1, sufficient);
    }
  }

  /** The retry delay keeps its promise. A call rejected anywhere in any run is answered after every
      clock reading applied so far was taken, `answered` at the earliest. Whoever reads the clock a
      second later is admitted, unless competing calls in between were admitted at least as often as
      a second's refill, capped by the burst, allows. It does not matter whether the rejected call
      was overtaken by later readings. */
  lemma RetryAfterAnswerIsAdmitted(
    p: Policy, s: BucketState, before: seq<nat>, now: nat, answered: nat, between: seq<nat>, retry: nat)
    requires p.Valid() && s.tokens <= p.Cap() && s.lastRefill <= answered
    requires forall t <- before + [now] :: t <= answered
    requires !Admits(p, After(p, s, before), now)
    requires answered + 1_000_000_000 <= retry
    ensures var e := After(p, s, before + [now]);
            Admitted(p, e, between) < Min(p.requestsPerSecond, p.burst) ==> Admits(p, After(p, e, between), retry)
  {
    hide Refill, Spilled, RunningMax, After, Decisions;
    var e := After(p, s, before + [now]);
    RunConservesTokens(p, s, before + [now]);
    RunningMaxCovers(s.lastRefill, before + [now], answered);
    var m := After(p, e, between);
    RunConservesTokens(p, e, between);
    EnoughLeft(p, e, m, Admitted(p, e, between), between, retry);
  }

  /** In particular a lone retry is always admitted. */
  lemma LoneRetryIsAdmitted(p: Policy, s: BucketState, before: seq<nat>, now: nat, answered: nat, retry: nat)
    requires p.Valid() && s.tokens <= p.Cap() && s.lastRefill <= answered
    requires forall t <- before + [now] :: t <= answered
    requires !Admits(p, After(p, s, before), now)
    requires answered + 1_000_000_000 <= retry
    ensures Admits(p, After(p, s, before + [now]), retry)
  {
    RetryAfterAnswerIsAdmitted(p, s, before, now, answered, [], retry);
  }
}
