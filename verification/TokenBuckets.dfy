/**
 Token buckets as values: the state transformers of one bucket and the laws that
 hold for every sequence of arrivals on it.

 Instants and token amounts are exact reals (seconds and tokens).
 */
module TokenBuckets {

  datatype Policy = Policy(requestsPerSec: nat, burst: nat) {
    function Capacity(): real {
      (burst + 1) as real
    }

    function Rate(): real {
      requestsPerSec as real
    }
  }

  datatype Bucket = Bucket(policy: Policy, tokens: real, lastRefill: real) {
    ghost predicate InRange() {
      0.0 <= tokens <= policy.Capacity()
    }
  }

  datatype Arrival = Arrival(policy: Policy, now: real)

  function Min(a: real, b: real): real {
    if a <= b then a else b
  }

  // `Instant::duration_since` saturates at zero when the clock reads backwards.
  function Elapsed(since: real, now: real): real {
    if now > since then now - since else 0.0
  }

  // The tokens earned between two instants.
  function Gain(policy: Policy, since: real, now: real): real {
    Elapsed(since, now) * policy.Rate()
  }

  function Fresh(policy: Policy, now: real): Bucket {
    Bucket(policy, policy.Capacity(), now)
  }

  function Refill(b: Bucket, now: real): Bucket {
    var replenished := b.tokens + Gain(b.policy, b.lastRefill, now);
    b.(tokens := Min(replenished, b.policy.Capacity()), lastRefill := now)
  }

  function Reconfigure(b: Bucket, policy: Policy, now: real): Bucket {
    if b.policy == policy then b
    else
      var refilled := Refill(b, now);
      refilled.(tokens := Min(refilled.tokens, policy.Capacity()), policy := policy)
  }

  function Acquire(b: Bucket, policy: Policy, now: real): (Bucket, bool) {
    var ready := Refill(Reconfigure(b, policy, now), now);
    if ready.tokens < 1.0 then (ready, false) else (ready.(tokens := ready.tokens - 1.0), true)
  }

  // What `is_evictable` answers; it also refills the bucket.
  predicate Evictable(b: Bucket, now: real) {
    Refill(b, now).tokens >= b.policy.Capacity()
  }

  // ----- One step -----

  lemma RefillStaysInRange(b: Bucket, now: real)
    requires b.InRange()
    ensures Refill(b, now).InRange()
    ensures b.tokens <= Refill(b, now).tokens <= b.tokens + Gain(b.policy, b.lastRefill, now)
  {
    assert Gain(b.policy, b.lastRefill, now) >= 0.0;
  }

  lemma AcquireStaysInRange(b: Bucket, policy: Policy, now: real)
    requires b.InRange()
    ensures Acquire(b, policy, now).0.InRange()
    ensures Acquire(b, policy, now).0.policy == policy
    ensures Acquire(b, policy, now).0.lastRefill == now
  {
    RefillStaysInRange(b, now);
    RefillStaysInRange(Reconfigure(b, policy, now), now);
  }

  lemma GainAdds(policy: Policy, t0: real, t1: real, t2: real)
    requires t0 <= t1 <= t2
    ensures Gain(policy, t0, t2) == Gain(policy, t0, t1) + Gain(policy, t1, t2)
    ensures Gain(policy, t0, t1) >= 0.0 && Gain(policy, t1, t2) >= 0.0
  {
    assert Elapsed(t0, t2) == Elapsed(t0, t1) + Elapsed(t1, t2);
  }

  // Time that passes earns at the rate of the policy; a clock that reads back earns nothing, and
  // the bucket goes on from the earlier reading.
  lemma RefillEarns(b: Bucket, now: real)
    requires b.InRange()
    ensures Refill(b, now).lastRefill == now && Refill(b, now).policy == b.policy
    ensures now <= b.lastRefill ==> Refill(b, now).tokens == b.tokens
    ensures now >= b.lastRefill ==>
              Refill(b, now).tokens
              == Min(b.tokens + (now - b.lastRefill) * (b.policy.requestsPerSec as real), b.policy.burst as real + 1.0)
  {
    if now >= b.lastRefill {
      assert Elapsed(b.lastRefill, now) == now - b.lastRefill;
    } else {
      assert Elapsed(b.lastRefill, now) == 0.0;
    }
    assert Gain(b.policy, b.lastRefill, now) == Elapsed(b.lastRefill, now) * b.policy.Rate();
  }

  // Refilling in two steps of a forward clock is refilling once.
  lemma RefillComposes(b: Bucket, t1: real, t2: real)
    requires b.InRange() && b.lastRefill <= t1 <= t2
    ensures Refill(Refill(b, t1), t2) == Refill(b, t2)
  {
    GainAdds(b.policy, b.lastRefill, t1, t2);
  }

  function Spent(admitted: bool): real {
    if admitted then 1.0 else 0.0
  }

  // A check spends only tokens the bucket had, was refilled with, or could hold.
  lemma AcquireBudget(b: Bucket, policy: Policy, now: real)
    requires b.InRange()
    ensures var (after, admitted) := Acquire(b, policy, now);
            && after.tokens + Spent(admitted) <= policy.Capacity()
            && (b.policy == policy ==>
                  after.tokens + Spent(admitted) <= b.tokens + Gain(policy, b.lastRefill, now))
  {
    RefillStaysInRange(b, now);
    RefillStaysInRange(Reconfigure(b, policy, now), now);
  }

  // What a check can draw on: the tokens held and those earned under the policy in force until
  // now, as far as the old policy and the new one can hold them.
  function Available(b: Bucket, policy: Policy, now: real): real {
    Min(Min(b.tokens + Gain(b.policy, b.lastRefill, now), b.policy.Capacity()), policy.Capacity())
  }

  // A check, with or without a change of policy, spends exactly from what is available.
  lemma AcquireSpendsAvailable(b: Bucket, policy: Policy, now: real)
    requires b.InRange()
    ensures var (after, admitted) := Acquire(b, policy, now);
            && after.tokens + Spent(admitted) == Available(b, policy, now)
            && (admitted <==> Available(b, policy, now) >= 1.0)
            && after.policy == policy && after.lastRefill == now
  {
    RefillStaysInRange(b, now);
    RefillStaysInRange(Reconfigure(b, policy, now), now);
  }

  // A bucket that has earned one token since its last refill admits.
  lemma EarnedTokenAdmits(b: Bucket, now: real)
    requires b.InRange()
    requires b.tokens >= 1.0 || Gain(b.policy, b.lastRefill, now) >= 1.0
    ensures Acquire(b, b.policy, now).1
  {
    assert b.policy.Capacity() >= 1.0;
    RefillStaysInRange(b, now);
    assert Refill(b, now).tokens >= 1.0;
  }

  // ----- Whole runs on one bucket -----

  function StateAfter(b: Bucket, arrivals: seq<Arrival>): Bucket {
    if arrivals == [] then b
    else
      var last := arrivals[|arrivals| - 1];
      Acquire(StateAfter(b, arrivals[..|arrivals| - 1]), last.policy, last.now).0
  }

  // Whether arrival `i` of the run is admitted.
  predicate Admits(b: Bucket, arrivals: seq<Arrival>, i: nat)
    requires i < |arrivals|
  {
    Acquire(StateAfter(b, arrivals[..i]), arrivals[i].policy, arrivals[i].now).1
  }

  function Admitted(b: Bucket, arrivals: seq<Arrival>, lo: nat, hi: nat): nat
    requires lo <= hi <= |arrivals|
    decreases hi
  {
    if lo == hi then 0
    else Admitted(b, arrivals, lo, hi - 1) + if Admits(b, arrivals, hi - 1) then 1 else 0
  }

  // Total forward movement of the clock between the first and the last arrival of a window.
  function ForwardTime(arrivals: seq<Arrival>, lo: nat, hi: nat): real
    requires lo <= hi <= |arrivals|
    decreases hi
  {
    if hi <= lo + 1 then 0.0
    else ForwardTime(arrivals, lo, hi - 1) + Elapsed(arrivals[hi - 2].now, arrivals[hi - 1].now)
  }

  ghost predicate FixedPolicy(arrivals: seq<Arrival>, policy: Policy, lo: nat, hi: nat)
    requires lo <= hi <= |arrivals|
  {
    forall i | lo <= i < hi :: arrivals[i].policy == policy
  }

  ghost predicate Forward(arrivals: seq<Arrival>) {
    forall i, j | 0 <= i < j < |arrivals| :: arrivals[i].now <= arrivals[j].now
  }

  lemma {:induction false} StateAfterStep(b: Bucket, arrivals: seq<Arrival>, i: nat)
    requires i < |arrivals|
    ensures StateAfter(b, arrivals[..i + 1])
         == Acquire(StateAfter(b, arrivals[..i]), arrivals[i].policy, arrivals[i].now).0
  {
    assert arrivals[..i + 1][..i] == arrivals[..i];
  }

  // Tokens stay within [0, capacity] over every run, whatever the clock and the policies do.
  lemma {:induction false} RunStaysInRange(b: Bucket, arrivals: seq<Arrival>)
    requires b.InRange()
    ensures StateAfter(b, arrivals).InRange()
    ensures arrivals != [] ==>
              StateAfter(b, arrivals).policy == arrivals[|arrivals| - 1].policy
              && StateAfter(b, arrivals).lastRefill == arrivals[|arrivals| - 1].now
  {
    if arrivals != [] {
      var n := |arrivals| - 1;
      RunStaysInRange(b, arrivals[..n]);
      AcquireStaysInRange(StateAfter(b, arrivals[..n]), arrivals[n].policy, arrivals[n].now);
    }
  }

  // The tokens that the clock's movement earns over a window, step by step.
  function Earned(arrivals: seq<Arrival>, policy: Policy, lo: nat, hi: nat): real
    requires lo <= hi <= |arrivals|
    decreases hi
  {
    if hi <= lo + 1 then 0.0
    else Earned(arrivals, policy, lo, hi - 1)
         + Gain(policy, arrivals[hi - 2].now, arrivals[hi - 1].now)
  }

  lemma {:induction false} EarnedIsRateTimesForwardTime(arrivals: seq<Arrival>, policy: Policy, lo: nat, hi: nat)
    requires lo <= hi <= |arrivals|
    ensures Earned(arrivals, policy, lo, hi) == ForwardTime(arrivals, lo, hi) * policy.Rate()
    decreases hi
  {
    if lo + 1 < hi {
      EarnedIsRateTimesForwardTime(arrivals, policy, lo, hi - 1);
    }
  }

  // The potential argument: spent plus remaining tokens never exceed what the window supplied.
  lemma {:induction false} WindowBudget(b: Bucket, arrivals: seq<Arrival>, policy: Policy, lo: nat, hi: nat)
    requires b.InRange() && lo < hi <= |arrivals|
    requires FixedPolicy(arrivals, policy, lo, hi)
    ensures StateAfter(b, arrivals[..hi]).tokens + Admitted(b, arrivals, lo, hi) as real
         <= policy.Capacity() + Earned(arrivals, policy, lo, hi)
    decreases hi
  {
    RunStaysInRange(b, arrivals[..hi - 1]);
    StateAfterStep(b, arrivals, hi - 1);
    AcquireBudget(StateAfter(b, arrivals[..hi - 1]), policy, arrivals[hi - 1].now);
    if lo + 1 < hi {
      WindowBudget(b, arrivals, policy, lo, hi - 1);
    }
  }

  // The tokens earned between an arrival and the one before it, at the rate then in force.
  function GainInForce(b: Bucket, arrivals: seq<Arrival>, i: nat): real
    requires i < |arrivals|
  {
    if i == 0 then Gain(b.policy, b.lastRefill, arrivals[0].now)
    else Gain(arrivals[i - 1].policy, arrivals[i - 1].now, arrivals[i].now)
  }

  function EarnedInForce(b: Bucket, arrivals: seq<Arrival>, lo: nat, hi: nat): real
    requires lo <= hi <= |arrivals|
    decreases hi
  {
    if lo == hi then 0.0 else EarnedInForce(b, arrivals, lo, hi - 1) + GainInForce(b, arrivals, hi - 1)
  }

  lemma AnyPolicyStep(b: Bucket, arrivals: seq<Arrival>, i: nat, next: nat)
    requires b.InRange() && i < |arrivals| && next == i + 1
    ensures StateAfter(b, arrivals[..next]).tokens + Spent(Admits(b, arrivals, i))
         <= StateAfter(b, arrivals[..i]).tokens + GainInForce(b, arrivals, i)
  {
    var before := arrivals[..i];
    RunStaysInRange(b, before);
    StateAfterStep(b, arrivals, i);
    AcquireSpendsAvailable(StateAfter(b, before), arrivals[i].policy, arrivals[i].now);
    if i > 0 {
      assert before[|before| - 1] == arrivals[i - 1];
    } else {
      assert before == [];
    }
  }

  lemma AdmittedSteps(b: Bucket, arrivals: seq<Arrival>, lo: nat, i: nat, next: nat)
    requires lo <= i < |arrivals| && next == i + 1
    ensures Admitted(b, arrivals, lo, next) as real == Admitted(b, arrivals, lo, i) as real + Spent(Admits(b, arrivals, i))
    ensures EarnedInForce(b, arrivals, lo, next) == EarnedInForce(b, arrivals, lo, i) + GainInForce(b, arrivals, i)
  {
  }

  // Across any changes of policy, spent plus remaining tokens never exceed the tokens that the
  // window opened with plus what it earned at the rates in force.
  lemma {:induction false} AnyPolicyBudget(b: Bucket, arrivals: seq<Arrival>, lo: nat, hi: nat)
    requires b.InRange() && lo <= hi <= |arrivals|
    ensures StateAfter(b, arrivals[..hi]).tokens + Admitted(b, arrivals, lo, hi) as real
         <= StateAfter(b, arrivals[..lo]).tokens + EarnedInForce(b, arrivals, lo, hi)
    decreases hi
  {
    if lo < hi {
      var i := hi - 1;
      AnyPolicyBudget(b, arrivals, lo, i);
      AnyPolicyStep(b, arrivals, i, hi);
      AdmittedSteps(b, arrivals, lo, i, hi);
    }
  }

  // Any window of any run admits at most the capacity plus what the clock's forward movement refills.
  lemma WindowBound(b: Bucket, arrivals: seq<Arrival>, policy: Policy, lo: nat, hi: nat)
    requires b.InRange() && lo < hi <= |arrivals|
    requires FixedPolicy(arrivals, policy, lo, hi)
    ensures Admitted(b, arrivals, lo, hi) as real
         <= policy.burst as real + 1.0 + ForwardTime(arrivals, lo, hi) * policy.Rate()
  {
    EarnedIsRateTimesForwardTime(arrivals, policy, lo, hi);
    WindowBudget(b, arrivals, policy, lo, hi);
    RunStaysInRange(b, arrivals[..hi]);
  }

  // On a clock that never reads backwards a window earns what lies between its first and last arrival.
  lemma {:induction false} EarnedOnForwardClock(arrivals: seq<Arrival>, policy: Policy, lo: nat, hi: nat)
    requires lo < hi <= |arrivals| && Forward(arrivals)
    ensures arrivals[lo].now <= arrivals[hi - 1].now
    ensures Earned(arrivals, policy, lo, hi) == Gain(policy, arrivals[lo].now, arrivals[hi - 1].now)
    decreases hi
  {
    if lo + 1 < hi {
      EarnedOnForwardClock(arrivals, policy, lo, hi - 1);
      GainAdds(policy, arrivals[lo].now, arrivals[hi - 2].now, arrivals[hi - 1].now);
    }
  }

  // The other side of the bound: arrivals spaced at least one refill interval apart are all admitted.
  lemma {:induction false} SpacedArrivalsAreAdmitted(b: Bucket, arrivals: seq<Arrival>, policy: Policy, i: nat)
    requires b == Fresh(policy, b.lastRefill) && i < |arrivals|
    requires FixedPolicy(arrivals, policy, 0, |arrivals|)
    requires forall k | 0 < k < |arrivals| :: Gain(policy, arrivals[k - 1].now, arrivals[k].now) >= 1.0
    ensures Admits(b, arrivals, i)
  {
    RunStaysInRange(b, arrivals[..i]);
    if i > 0 {
      assert arrivals[..i][i - 1] == arrivals[i - 1];
    }
    EarnedTokenAdmits(StateAfter(b, arrivals[..i]), arrivals[i].now);
  }
}
