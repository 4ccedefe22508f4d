/**
 The sharded, evicting rate limiter as a state transformer, and the theorem that it
 decides exactly like one never-evicted token bucket per key.

 The hash that spreads keys over shards is a parameter, so every result holds for
 every hash, including one that sends all keys to one shard.
 */
module RateLimiter {
  import opened TokenBuckets

  datatype BucketKey = BucketKey(route: string, clientIp: string)

  type Hash = BucketKey -> nat

  datatype Shard = Shard(buckets: map<BucketKey, Bucket>, nextCleanupAt: real)

  datatype Limiter = Limiter(shards: seq<Shard>, cleanupInterval: real)

  datatype Request = Request(key: BucketKey, policy: Policy, now: real)

  function ShardIndex(h: Hash, shardCount: nat, key: BucketKey): (i: nat)
    requires shardCount > 0
    ensures i < shardCount
  {
    h(key) % shardCount
  }

  // Two keys share a shard exactly if their hashes agree in the low bits, and every shard is in use.
  lemma ShardsAreSpread(h: Hash, shardCount: nat, k1: BucketKey, k2: BucketKey)
    requires shardCount > 0
    ensures ShardIndex(h, shardCount, k1) == ShardIndex(h, shardCount, k2)
       <==> h(k1) % shardCount == h(k2) % shardCount
    ensures h(k1) < shardCount ==> ShardIndex(h, shardCount, k1) == h(k1)
  {
  }

  // Cleanup refills every bucket it visits and keeps those that are not yet full.
  function Retain(buckets: map<BucketKey, Bucket>, now: real): map<BucketKey, Bucket> {
    map k | k in buckets && !Evictable(buckets[k], now) :: Refill(buckets[k], now)
  }

  lemma RetainByKey(before: map<BucketKey, Bucket>, after: map<BucketKey, Bucket>, now: real)
    requires forall k | k in after :: k in before && after[k] == Refill(before[k], now)
    requires forall k | k in before :: k in after <==> !Evictable(before[k], now)
    ensures after == Retain(before, now)
  {
  }

  function Cleanup(s: Shard, now: real, interval: real): Shard {
    if now < s.nextCleanupAt then s else Shard(Retain(s.buckets, now), now + interval)
  }

  // A cleanup that is due leaves no full bucket and sets the next one.
  lemma CleanupDropsFull(s: Shard, now: real, interval: real)
    requires now >= s.nextCleanupAt
    ensures var cleaned := Cleanup(s, now, interval);
            && cleaned.nextCleanupAt == now + interval
            && (forall k | k in cleaned.buckets :: cleaned.buckets[k].tokens < cleaned.buckets[k].policy.Capacity())
            && (forall k | k in s.buckets && k !in cleaned.buckets ::
                  Refill(s.buckets[k], now).tokens >= s.buckets[k].policy.Capacity())
  {
  }

  function CheckShard(s: Shard, interval: real, r: Request): (Shard, bool) {
    var cleaned := Cleanup(s, r.now, interval);
    var bucket := if r.key in cleaned.buckets then cleaned.buckets[r.key] else Fresh(r.policy, r.now);
    var (after, admitted) := Acquire(bucket, r.policy, r.now);
    (cleaned.(buckets := cleaned.buckets[r.key := after]), admitted)
  }

  function Check(l: Limiter, h: Hash, r: Request): (Limiter, bool)
    requires l.shards != []
  {
    var i := ShardIndex(h, |l.shards|, r.key);
    var (shard, admitted) := CheckShard(l.shards[i], l.cleanupInterval, r);
    (l.(shards := l.shards[i := shard]), admitted)
  }

  function After(l: Limiter, h: Hash, requests: seq<Request>): (r: Limiter)
    requires l.shards != []
    ensures |r.shards| == |l.shards| && r.cleanupInterval == l.cleanupInterval
  {
    if requests == [] then l
    else Check(After(l, h, requests[..|requests| - 1]), h, requests[|requests| - 1]).0
  }

  // The sharded limiter's answer to request `i`.
  predicate Allows(l: Limiter, h: Hash, requests: seq<Request>, i: nat)
    requires l.shards != [] && i < |requests|
  {
    Check(After(l, h, requests[..i]), h, requests[i]).1
  }

  // ----- The reference: one bucket per key, never evicted -----

  function Own(requests: seq<Request>, key: BucketKey): seq<Arrival> {
    if requests == [] then []
    else
      var last := requests[|requests| - 1];
      var earlier := Own(requests[..|requests| - 1], key);
      if last.key == key then earlier + [Arrival(last.policy, last.now)] else earlier
  }

  function Opening(own: seq<Arrival>): Bucket
    requires own != []
  {
    Fresh(own[0].policy, own[0].now)
  }

  // The reference answer to request `i`: only the key's own arrivals matter.
  predicate ReferenceAllows(requests: seq<Request>, i: nat)
    requires i < |requests|
  {
    var own := Own(requests[..i], requests[i].key);
    var arrival := Arrival(requests[i].policy, requests[i].now);
    Admits(Opening(own + [arrival]), own + [arrival], |own|)
  }

  // ----- What the theorem assumes -----

  ghost predicate NoBuckets(l: Limiter) {
    l.shards != [] && forall i | 0 <= i < |l.shards| :: l.shards[i].buckets == map[]
  }

  // The key's policy may change, as long as its burst does not grow. Other keys do as they like.
  ghost predicate BurstsShrink(requests: seq<Request>, key: BucketKey) {
    forall i, j | 0 <= i < j < |requests| && requests[i].key == key == requests[j].key ::
      requests[i].policy.burst >= requests[j].policy.burst
  }

  // The clock readings that reach the key's shard do not go backwards. Shards are independent.
  ghost predicate ShardClockForward(h: Hash, shardCount: nat, requests: seq<Request>, key: BucketKey)
    requires shardCount > 0
  {
    var shard := ShardIndex(h, shardCount, key);
    forall i, j | 0 <= i < j < |requests|
                  && ShardIndex(h, shardCount, requests[i].key) == shard == ShardIndex(h, shardCount, requests[j].key) ::
      requests[i].now <= requests[j].now
  }

  ghost predicate SeenBy(h: Hash, shardCount: nat, requests: seq<Request>, shard: nat, clock: real)
    requires shardCount > 0
  {
    forall i | 0 <= i < |requests| && ShardIndex(h, shardCount, requests[i].key) == shard ::
      requests[i].now <= clock
  }

  // ----- The simulation relation -----

  // A kept bucket is the reference bucket refilled a little further; an absent one is full by now.
  ghost predicate Tracks(buckets: map<BucketKey, Bucket>, key: BucketKey, own: seq<Arrival>, clock: real) {
    if own == [] then key !in buckets
    else
      var reference := StateAfter(Opening(own), own);
      && reference.InRange()
      && reference.policy == own[|own| - 1].policy
      && reference.lastRefill <= clock
      && if key in buckets then
           && reference.lastRefill <= buckets[key].lastRefill <= clock
           && buckets[key] == Refill(reference, buckets[key].lastRefill)
         else Evictable(reference, clock)
  }

  lemma FullStaysFull(b: Bucket, t1: real, t2: real)
    requires b.InRange() && b.lastRefill <= t1 <= t2 && Evictable(b, t1)
    ensures Evictable(b, t2)
  {
    RefillComposes(b, t1, t2);
    RefillStaysInRange(b, t1);
    RefillStaysInRange(Refill(b, t1), t2);
  }

  lemma TracksLater(buckets: map<BucketKey, Bucket>, key: BucketKey, own: seq<Arrival>, t1: real, t2: real)
    requires Tracks(buckets, key, own, t1) && t1 <= t2
    ensures Tracks(buckets, key, own, t2)
  {
    if own != [] && key !in buckets {
      FullStaysFull(StateAfter(Opening(own), own), t1, t2);
    }
  }

  lemma CleanupKeepsTracking(s: Shard, key: BucketKey, own: seq<Arrival>, now: real, interval: real)
    requires Tracks(s.buckets, key, own, now)
    ensures Tracks(Cleanup(s, now, interval).buckets, key, own, now)
  {
    if own != [] && key in s.buckets {
      RefillComposes(StateAfter(Opening(own), own), s.buckets[key].lastRefill, now);
    }
  }

  // A full bucket acts like a new one, if the new one would not hold more.
  lemma FullActsFresh(full: Bucket, policy: Policy, now: real)
    requires full.InRange() && Evictable(full, now) && full.lastRefill <= now
    requires full.policy.burst >= policy.burst
    ensures Acquire(full, policy, now) == Acquire(Fresh(policy, now), policy, now)
  {
    RefillStaysInRange(full, now);
    assert Refill(full, now).tokens == full.policy.Capacity() >= policy.Capacity();
  }

  // On a tracked bucket the shard and the reference answer alike and end in the same state.
  lemma CheckMatchesReference(s: Shard, interval: real, r: Request, own: seq<Arrival>)
    requires Tracks(s.buckets, r.key, own, r.now)
    requires own != [] ==> own[|own| - 1].policy.burst >= r.policy.burst
    ensures var own' := own + [Arrival(r.policy, r.now)];
            && CheckShard(s, interval, r).1 == Admits(Opening(own'), own', |own|)
            && CheckShard(s, interval, r).0.buckets[r.key] == StateAfter(Opening(own'), own')
  {
    CleanupKeepsTracking(s, r.key, own, r.now, interval);
    var own' := own + [Arrival(r.policy, r.now)];
    assert own'[..|own|] == own;
    if own != [] {
      var reference := StateAfter(Opening(own), own);
      var kept := Cleanup(s, r.now, interval).buckets;
      if r.key in kept {
        RefillComposes(reference, kept[r.key].lastRefill, r.now);
      } else {
        RefillStaysInRange(reference, r.now);
        FullActsFresh(reference, r.policy, r.now);
      }
    }
  }

  lemma OwnTracksItself(own: seq<Arrival>)
    requires own != []
    ensures var reference := StateAfter(Opening(own), own);
            && reference.InRange()
            && reference.policy == own[|own| - 1].policy
            && reference.lastRefill == own[|own| - 1].now
            && reference == Refill(reference, reference.lastRefill)
  {
    RunStaysInRange(Opening(own), own);
  }

  lemma CheckKeepsTracking(s: Shard, interval: real, r: Request, key: BucketKey, own: seq<Arrival>)
    requires Tracks(s.buckets, key, own, r.now)
    requires key == r.key && own != [] ==> own[|own| - 1].policy.burst >= r.policy.burst
    ensures var own' := if key == r.key then own + [Arrival(r.policy, r.now)] else own;
            Tracks(CheckShard(s, interval, r).0.buckets, key, own', r.now)
  {
    CleanupKeepsTracking(s, key, own, r.now, interval);
    if key == r.key {
      CheckMatchesReference(s, interval, r, own);
      OwnTracksItself(own + [Arrival(r.policy, r.now)]);
    }
  }

  lemma {:induction false} OwnEndsWithRequest(requests: seq<Request>, key: BucketKey)
    ensures Own(requests, key) != [] ==>
              exists i | 0 <= i < |requests| && requests[i].key == key ::
                requests[i].policy == Own(requests, key)[|Own(requests, key)| - 1].policy
  {
    if requests != [] && requests[|requests| - 1].key != key && Own(requests, key) != [] {
      var shorter := requests[..|requests| - 1];
      OwnEndsWithRequest(shorter, key);
      var i :| 0 <= i < |shorter| && shorter[i].key == key
               && shorter[i].policy == Own(shorter, key)[|Own(shorter, key)| - 1].policy;
      assert requests[i].key == key;
    }
  }

  lemma {:induction false} RunTracks(l: Limiter, h: Hash, requests: seq<Request>, key: BucketKey, clock: real)
    requires NoBuckets(l) && BurstsShrink(requests, key) && ShardClockForward(h, |l.shards|, requests, key)
    requires SeenBy(h, |l.shards|, requests, ShardIndex(h, |l.shards|, key), clock)
    ensures Tracks(After(l, h, requests).shards[ShardIndex(h, |l.shards|, key)].buckets, key, Own(requests, key), clock)
    decreases |requests|
  {
    if requests != [] {
      var shorter, last := requests[..|requests| - 1], requests[|requests| - 1];
      var shard := ShardIndex(h, |l.shards|, key);
      if ShardIndex(h, |l.shards|, last.key) == shard {
        RunTracks(l, h, shorter, key, last.now);
        OwnEndsWithRequest(shorter, key);
        CheckKeepsTracking(After(l, h, shorter).shards[shard], l.cleanupInterval, last, key, Own(shorter, key));
        TracksLater(After(l, h, requests).shards[shard].buckets, key, Own(requests, key), last.now, clock);
      } else {
        RunTracks(l, h, shorter, key, clock);
      }
    }
  }

  // Sharding and lazy eviction are invisible: every answer is the one the never-evicted bucket gives.
  lemma ShardedMatchesReference(l: Limiter, h: Hash, requests: seq<Request>, i: nat)
    requires i < |requests|
    requires NoBuckets(l) && BurstsShrink(requests, requests[i].key) && ShardClockForward(h, |l.shards|, requests, requests[i].key)
    ensures Allows(l, h, requests, i) == ReferenceAllows(requests, i)
  {
    var r := requests[i];
    var shard := ShardIndex(h, |l.shards|, r.key);
    RunTracks(l, h, requests[..i], r.key, r.now);
    OwnEndsWithRequest(requests[..i], r.key);
    CheckMatchesReference(After(l, h, requests[..i]).shards[shard], l.cleanupInterval, r, Own(requests[..i], r.key));
  }

  // ----- The admission bound, carried over to the sharded limiter -----

  function AllowedFor(l: Limiter, h: Hash, requests: seq<Request>, key: BucketKey, lo: nat, hi: nat): nat
    requires l.shards != [] && lo <= hi <= |requests|
    decreases hi
  {
    if lo == hi then 0
    else AllowedFor(l, h, requests, key, lo, hi - 1)
         + if requests[hi - 1].key == key && Allows(l, h, requests, hi - 1) then 1 else 0
  }

  lemma {:induction false} OwnPrefix(requests: seq<Request>, key: BucketKey, i: nat)
    requires i <= |requests|
    ensures Own(requests[..i], key) <= Own(requests, key)
    decreases |requests|
  {
    if i < |requests| {
      var shorter := requests[..|requests| - 1];
      OwnPrefix(shorter, key, i);
      assert shorter[..i] == requests[..i];
    } else {
      assert requests[..i] == requests;
    }
  }

  // Every own arrival is a request for the key, at the position its prefix count says.
  lemma OwnStep(requests: seq<Request>, key: BucketKey, i: nat)
    requires i < |requests|
    ensures var n := |Own(requests[..i], key)|;
            if requests[i].key == key
            then |Own(requests, key)| > n
                 && Own(requests[..i + 1], key) == Own(requests, key)[..n + 1]
                 && Own(requests, key)[n] == Arrival(requests[i].policy, requests[i].now)
            else Own(requests[..i + 1], key) == Own(requests[..i], key)
  {
    OwnPrefix(requests, key, i);
    OwnPrefix(requests, key, i + 1);
    assert requests[..i + 1][..i] == requests[..i];
  }

  lemma ReferenceReadsOwn(requests: seq<Request>, i: nat)
    requires i < |requests|
    ensures var key := requests[i].key;
            var own, n := Own(requests, key), |Own(requests[..i], key)|;
            n < |own| && ReferenceAllows(requests, i) == Admits(Opening(own), own, n)
  {
    var key := requests[i].key;
    var own, n := Own(requests, key), |Own(requests[..i], key)|;
    OwnStep(requests, key, i);
    OwnPrefix(requests, key, i);
    assert Own(requests[..i], key) + [own[n]] == own[..n + 1];
    assert own[..n + 1][..n] == own[..n];
  }

  // How many of the first `i` requests are for the key.
  function Rank(requests: seq<Request>, key: BucketKey, i: nat): nat
    requires i <= |requests|
  {
    if i == 0 then 0 else Rank(requests, key, i - 1) + if requests[i - 1].key == key then 1 else 0
  }

  lemma {:induction false} RankCountsOwn(requests: seq<Request>, key: BucketKey, i: nat)
    requires i <= |requests|
    ensures |Own(requests[..i], key)| == Rank(requests, key, i) <= |Own(requests, key)|
  {
    OwnPrefix(requests, key, i);
    if i > 0 {
      RankCountsOwn(requests, key, i - 1);
      assert requests[..i][..i - 1] == requests[..i - 1];
    }
  }

  // A request for the key is the next own arrival, and is answered as the key's own bucket would.
  lemma RequestIsOwnArrival(l: Limiter, h: Hash, requests: seq<Request>, key: BucketKey, i: nat)
    requires NoBuckets(l) && BurstsShrink(requests, key) && ShardClockForward(h, |l.shards|, requests, key)
    requires i < |requests| && requests[i].key == key
    ensures Rank(requests, key, i) < |Own(requests, key)|
    ensures Allows(l, h, requests, i)
         == Admits(Opening(Own(requests, key)), Own(requests, key), Rank(requests, key, i))
  {
    RankCountsOwn(requests, key, i);
    ReferenceReadsOwn(requests, i);
    ShardedMatchesReference(l, h, requests, i);
  }

  // Request `i` for the key is answered as its turn among the key's own arrivals would be.
  ghost predicate Answered(l: Limiter, h: Hash, requests: seq<Request>, key: BucketKey, own: seq<Arrival>, i: nat)
    requires l.shards != [] && i < |requests| && own != []
  {
    requests[i].key == key ==>
      var n := Rank(requests, key, i);
      n < |own| && Allows(l, h, requests, i) == Admits(Opening(own), own, n)
  }

  ghost predicate CountsMatch(
      l: Limiter, h: Hash, requests: seq<Request>, key: BucketKey, own: seq<Arrival>, lo: nat, hi: nat)
    requires l.shards != [] && lo <= hi <= |requests| && own != []
  {
    && Rank(requests, key, lo) <= Rank(requests, key, hi) <= |own|
    && AllowedFor(l, h, requests, key, lo, hi)
       == Admitted(Opening(own), own, Rank(requests, key, lo), Rank(requests, key, hi))
  }

  lemma CountsStep(
      l: Limiter, h: Hash, requests: seq<Request>, key: BucketKey, own: seq<Arrival>, lo: nat, i: nat, next: nat)
    requires l.shards != [] && lo <= i < |requests| && own != [] && next == i + 1
    requires CountsMatch(l, h, requests, key, own, lo, i) && Answered(l, h, requests, key, own, i)
    ensures CountsMatch(l, h, requests, key, own, lo, next)
  {
    if requests[i].key == key {
      AllowedForNext(l, h, requests, key, lo, i, next);
      AdmittedNext(Opening(own), own, Rank(requests, key, lo), Rank(requests, key, i), Rank(requests, key, next));
    } else {
      assert Rank(requests, key, next) == Rank(requests, key, i);
    }
  }

  lemma AllowedForNext(l: Limiter, h: Hash, requests: seq<Request>, key: BucketKey, lo: nat, i: nat, next: nat)
    requires l.shards != [] && lo <= i < |requests| && next == i + 1 && requests[i].key == key
    ensures AllowedFor(l, h, requests, key, lo, next)
         == AllowedFor(l, h, requests, key, lo, i) + if Allows(l, h, requests, i) then 1 else 0
  {
  }

  lemma AdmittedNext(b: Bucket, own: seq<Arrival>, first: nat, n: nat, next: nat)
    requires first <= n < |own| && next == n + 1
    ensures Admitted(b, own, first, next) == Admitted(b, own, first, n) + if Admits(b, own, n) then 1 else 0
  {
  }

  lemma {:induction false} CountsAgree(
      l: Limiter, h: Hash, requests: seq<Request>, key: BucketKey, own: seq<Arrival>, lo: nat, hi: nat)
    requires l.shards != [] && lo <= hi <= |requests| && own != [] && Rank(requests, key, lo) <= |own|
    requires forall i | lo <= i < hi :: Answered(l, h, requests, key, own, i)
    ensures CountsMatch(l, h, requests, key, own, lo, hi)
    decreases hi
  {
    if lo < hi {
      CountsAgree(l, h, requests, key, own, lo, hi - 1);
      CountsStep(l, h, requests, key, own, lo, hi - 1, hi);
    }
  }

  lemma AllowedForIsAdmitted(
      l: Limiter, h: Hash, requests: seq<Request>, key: BucketKey, lo: nat, hi: nat)
    requires NoBuckets(l) && BurstsShrink(requests, key) && ShardClockForward(h, |l.shards|, requests, key)
    requires lo <= hi <= |requests| && Own(requests, key) != []
    ensures Rank(requests, key, lo) <= Rank(requests, key, hi) <= |Own(requests, key)|
    ensures AllowedFor(l, h, requests, key, lo, hi)
         == Admitted(Opening(Own(requests, key)), Own(requests, key),
                     Rank(requests, key, lo), Rank(requests, key, hi))
  {
    var own := Own(requests, key);
    forall i | lo <= i < hi ensures Answered(l, h, requests, key, own, i) {
      if requests[i].key == key {
        RequestIsOwnArrival(l, h, requests, key, i);
      }
    }
    RankCountsOwn(requests, key, lo);
    CountsAgree(l, h, requests, key, own, lo, hi);
  }

  lemma {:induction false} OwnComesFromRequests(requests: seq<Request>, key: BucketKey, lo: nat, hi: nat, k: nat)
    requires lo <= hi <= |requests|
    requires |Own(requests[..lo], key)| <= k < |Own(requests[..hi], key)|
    ensures |Own(requests[..hi], key)| <= |Own(requests, key)|
    ensures exists i | lo <= i < hi && requests[i].key == key ::
              Own(requests, key)[k] == Arrival(requests[i].policy, requests[i].now)
    decreases hi
  {
    OwnPrefix(requests, key, hi);
    OwnPrefix(requests, key, hi - 1);
    OwnStep(requests, key, hi - 1);
    if k < |Own(requests[..hi - 1], key)| {
      OwnComesFromRequests(requests, key, lo, hi - 1, k);
    } else {
      assert requests[hi - 1].key == key;
    }
  }

  lemma {:induction false} OwnIsForward(requests: seq<Request>, key: BucketKey)
    requires forall i, j | 0 <= i < j < |requests| && requests[i].key == key == requests[j].key ::
               requests[i].now <= requests[j].now
    ensures Forward(Own(requests, key))
  {
    if requests != [] {
      var shorter, last := requests[..|requests| - 1], requests[|requests| - 1];
      OwnIsForward(shorter, key);
      if last.key == key {
        var own := Own(shorter, key);
        forall k | 0 <= k < |own| ensures own[k].now <= last.now {
          assert shorter[..|shorter|] == shorter && shorter[..0] == [];
          OwnComesFromRequests(shorter, key, 0, |shorter|, k);
        }
      }
    }
  }

  lemma WindowWithin(own: seq<Arrival>, policy: Policy, a: nat, b: nat, t1: real, t2: real)
    requires a < b <= |own| && Forward(own) && FixedPolicy(own, policy, a, b)
    requires t1 <= own[a].now && own[b - 1].now <= t2
    ensures Admitted(Opening(own), own, a, b) as real <= policy.burst as real + 1.0 + Gain(policy, t1, t2)
  {
    WindowBudget(Opening(own), own, policy, a, b);
    RunStaysInRange(Opening(own), own[..b]);
    EarnedOnForwardClock(own, policy, a, b);
    GainAdds(policy, t1, own[a].now, own[b - 1].now);
    GainAdds(policy, t1, own[b - 1].now, t2);
  }

  // In any stretch of the run whose requests for a key fall within [t1, t2], the sharded
  // limiter lets through at most burst + 1 + rate * (t2 - t1) of them.
  lemma ShardedBound(
      l: Limiter, h: Hash, requests: seq<Request>, key: BucketKey, policy: Policy, lo: nat, hi: nat, t1: real, t2: real)
    requires NoBuckets(l) && ShardClockForward(h, |l.shards|, requests, key)
    requires lo <= hi <= |requests| && t1 <= t2
    requires forall i | 0 <= i < |requests| && requests[i].key == key :: requests[i].policy == policy
    requires forall i | lo <= i < hi && requests[i].key == key :: t1 <= requests[i].now <= t2
    ensures AllowedFor(l, h, requests, key, lo, hi) as real
         <= policy.burst as real + 1.0 + Gain(policy, t1, t2)
  {
    var own := Own(requests, key);
    var a, b := |Own(requests[..lo], key)|, |Own(requests[..hi], key)|;
    if own == [] {
      NoneAllowed(l, h, requests, key, lo, hi);
    } else {
      AllowedForIsAdmitted(l, h, requests, key, lo, hi);
      RankCountsOwn(requests, key, lo);
      RankCountsOwn(requests, key, hi);
      if a < b {
        forall k | a <= k < b ensures own[k].policy == policy && t1 <= own[k].now <= t2 {
          OwnComesFromRequests(requests, key, lo, hi, k);
        }
        OwnIsForward(requests, key);
        WindowWithin(own, policy, a, b, t1, t2);
      } else {
        GainAdds(policy, t1, t1, t2);
      }
    }
  }

  // Across changes of policy, in any stretch of the run: at most the tokens with which the key's
  // never-evicted bucket enters it, plus what it earns there at the rates in force.
  lemma ShardedBudget(l: Limiter, h: Hash, requests: seq<Request>, key: BucketKey, lo: nat, hi: nat)
    requires NoBuckets(l) && BurstsShrink(requests, key) && ShardClockForward(h, |l.shards|, requests, key)
    requires lo <= hi <= |requests| && Own(requests, key) != []
    ensures var own := Own(requests, key);
            var first, last := Rank(requests, key, lo), Rank(requests, key, hi);
            && first <= last <= |own|
            && AllowedFor(l, h, requests, key, lo, hi) as real
               <= StateAfter(Opening(own), own[..first]).tokens + EarnedInForce(Opening(own), own, first, last)
  {
    var own := Own(requests, key);
    AllowedForIsAdmitted(l, h, requests, key, lo, hi);
    AnyPolicyBudget(Opening(own), own, Rank(requests, key, lo), Rank(requests, key, hi));
    RunStaysInRange(Opening(own), own[..Rank(requests, key, hi)]);
  }

  lemma {:induction false} NoneAllowed(l: Limiter, h: Hash, requests: seq<Request>, key: BucketKey, lo: nat, hi: nat)
    requires l.shards != [] && lo <= hi <= |requests| && Own(requests, key) == []
    ensures AllowedFor(l, h, requests, key, lo, hi) == 0
    decreases hi
  {
    if lo < hi {
      NoneAllowed(l, h, requests, key, lo, hi - 1);
      OwnStep(requests, key, hi - 1);
    }
  }

  // ----- Why a burst must not grow -----

  function Repeated(policy: Policy, now: real, n: nat): (arrivals: seq<Arrival>)
    ensures |arrivals| == n && forall i | 0 <= i < n :: arrivals[i] == Arrival(policy, now)
  {
    seq(n, _ => Arrival(policy, now))
  }

  // With `held` tokens at hand, that many requests at one instant are admitted.
  lemma {:induction false} Drains(b: Bucket, policy: Policy, now: real, held: nat, n: nat)
    requires 1 <= held <= policy.burst + 1 && n > 0
    requires Refill(Reconfigure(b, policy, now), now) == Bucket(policy, held as real, now)
    ensures StateAfter(b, Repeated(policy, now, n))
         == Bucket(policy, if n <= held then (held - n) as real else 0.0, now)
  {
    var before := n - 1;
    assert Repeated(policy, now, n)[..before] == Repeated(policy, now, before);
    if before > 0 {
      Drains(b, policy, now, held, before);
    }
  }

  lemma AdmitsHeld(b: Bucket, policy: Policy, now: real, held: nat, i: nat)
    requires 1 <= held <= policy.burst + 1
    requires Refill(Reconfigure(b, policy, now), now) == Bucket(policy, held as real, now)
    ensures Admits(b, Repeated(policy, now, i + 1), i) <==> i < held
  {
    var arrivals := Repeated(policy, now, i + 1);
    assert arrivals[..i] == Repeated(policy, now, i);
    if i > 0 {
      Drains(b, policy, now, held, i);
    }
  }

  // The old bucket and a new one give the request after `i` others the same answer.
  ghost predicate AnswersAlike(full: Bucket, policy: Policy, now: real, i: nat) {
    var next := i + 1;
    Admits(full, Repeated(policy, now, next), i) == Admits(Fresh(policy, now), Repeated(policy, now, next), i)
  }

  // Dropping a full bucket cannot be noticed by any number of requests under a policy
  // exactly when that policy's burst is no larger.
  lemma EvictionInvisibleIff(full: Bucket, policy: Policy, now: real)
    requires full.InRange() && Evictable(full, now) && full.lastRefill <= now
    ensures (forall i: nat :: AnswersAlike(full, policy, now, i)) <==> policy.burst <= full.policy.burst
  {
    var kept := if full.policy.burst <= policy.burst then full.policy.burst + 1 else policy.burst + 1;
    RefillStaysInRange(full, now);
    assert Refill(full, now).tokens == full.policy.Capacity();
    forall i: nat ensures AnswersAlike(full, policy, now, i) <==> (i < kept <==> i < policy.burst + 1) {
      AdmitsHeld(full, policy, now, kept, i);
      AdmitsHeld(Fresh(policy, now), policy, now, policy.burst + 1, i);
    }
    if policy.burst > full.policy.burst {
      assert !AnswersAlike(full, policy, now, kept);
    }
  }

  // ----- Runs in which eviction shows -----

  // One request under a policy; then, late enough for its bucket to be full and evicted, `n` at
  // one instant under another policy.
  function GrowingRun(key: BucketKey, small: Policy, large: Policy, late: real, n: nat): seq<Request> {
    [Request(key, small, 0.0)] + seq(n, _ => Request(key, large, late))
  }

  function OneShard(interval: real): Limiter {
    Limiter([Shard(map[], interval)], interval)
  }

  // The burst grows, and the wait covers a cleanup and the refill of one token.
  ghost predicate Grows(small: Policy, large: Policy, late: real, interval: real) {
    && small.requestsPerSec >= 1 && small.burst < large.burst
    && late >= 1.0 && late >= interval > 0.0
  }

  lemma FirstAcquire(policy: Policy, now: real)
    ensures Acquire(Fresh(policy, now), policy, now) == (Bucket(policy, policy.burst as real, now), true)
  {
  }

  lemma FullByThen(small: Policy, late: real)
    requires small.requestsPerSec >= 1 && late >= 1.0
    ensures Refill(Bucket(small, small.burst as real, 0.0), late) == Bucket(small, small.Capacity(), late)
    ensures Evictable(Bucket(small, small.burst as real, 0.0), late)
  {
    assert late * small.Rate() >= late;
  }

  lemma GrowingStep(key: BucketKey, small: Policy, large: Policy, late: real, n: nat, next: nat)
    requires next == n + 1
    ensures GrowingRun(key, small, large, late, next)
         == GrowingRun(key, small, large, late, n) + [Request(key, large, late)]
  {
  }

  lemma OneShardStep(h: Hash, interval: real, requests: seq<Request>, shard: Shard, r: Request)
    requires After(OneShard(interval), h, requests).shards == [shard]
    ensures After(OneShard(interval), h, requests + [r]).shards == [CheckShard(shard, interval, r).0]
  {
    assert (requests + [r])[..|requests|] == requests;
    assert ShardIndex(h, 1, r.key) == 0;
  }

  lemma FirstCheck(key: BucketKey, small: Policy, interval: real)
    requires interval > 0.0
    ensures CheckShard(Shard(map[], interval), interval, Request(key, small, 0.0)).0
         == Shard(map[key := Bucket(small, small.burst as real, 0.0)], interval)
  {
    FirstAcquire(small, 0.0);
  }

  lemma LateCheck(key: BucketKey, small: Policy, large: Policy, late: real, interval: real)
    requires Grows(small, large, late, interval)
    ensures CheckShard(Shard(map[key := Bucket(small, small.burst as real, 0.0)], interval), interval,
                       Request(key, large, late)).0
         == Shard(map[key := Acquire(Fresh(large, late), large, late).0], late + interval)
  {
    FullByThen(small, late);
    assert Retain(map[key := Bucket(small, small.burst as real, 0.0)], late) == map[];
  }

  lemma LaterCheck(key: BucketKey, b: Bucket, large: Policy, late: real, interval: real)
    requires interval > 0.0
    ensures CheckShard(Shard(map[key := b], late + interval), interval, Request(key, large, late))
         == (Shard(map[key := Acquire(b, large, late).0], late + interval), Acquire(b, large, late).1)
  {
    assert map[key := b][key := Acquire(b, large, late).0] == map[key := Acquire(b, large, late).0];
  }

  lemma RepeatedStep(b: Bucket, policy: Policy, now: real, n: nat, next: nat)
    requires next == n + 1
    ensures StateAfter(b, Repeated(policy, now, next)) == Acquire(StateAfter(b, Repeated(policy, now, n)), policy, now).0
    ensures Admits(b, Repeated(policy, now, next), n) == Acquire(StateAfter(b, Repeated(policy, now, n)), policy, now).1
  {
    assert Repeated(policy, now, next)[..n] == Repeated(policy, now, n);
  }

  // After the eviction the shard holds what a new bucket has become.
  lemma {:induction false} ShardAfterGrowth(
      key: BucketKey, h: Hash, small: Policy, large: Policy, late: real, interval: real, n: nat)
    requires Grows(small, large, late, interval) && n > 0
    ensures After(OneShard(interval), h, GrowingRun(key, small, large, late, n)).shards
         == [Shard(map[key := StateAfter(Fresh(large, late), Repeated(large, late, n))], late + interval)]
  {
    var before := n - 1;
    GrowingStep(key, small, large, late, before, n);
    RepeatedStep(Fresh(large, late), large, late, before, n);
    if before == 0 {
      var first := Request(key, small, 0.0);
      FirstCheck(key, small, interval);
      OneShardStep(h, interval, [], Shard(map[], interval), first);
      assert GrowingRun(key, small, large, late, 0) == [] + [first];
      LateCheck(key, small, large, late, interval);
      OneShardStep(h, interval, GrowingRun(key, small, large, late, 0),
                   Shard(map[key := Bucket(small, small.burst as real, 0.0)], interval), Request(key, large, late));
      assert StateAfter(Fresh(large, late), Repeated(large, late, 0)) == Fresh(large, late);
    } else {
      var b := StateAfter(Fresh(large, late), Repeated(large, late, before));
      ShardAfterGrowth(key, h, small, large, late, interval, before);
      OneShardStep(h, interval, GrowingRun(key, small, large, late, before),
                   Shard(map[key := b], late + interval), Request(key, large, late));
      LaterCheck(key, b, large, late, interval);
    }
  }

  lemma {:induction false} OwnOfGrowth(key: BucketKey, small: Policy, large: Policy, late: real, n: nat)
    ensures Own(GrowingRun(key, small, large, late, n), key) == [Arrival(small, 0.0)] + Repeated(large, late, n)
  {
    var run := GrowingRun(key, small, large, late, n);
    if n == 0 {
      assert run[..0] == [] && Own([], key) == [];
    } else {
      OwnOfGrowth(key, small, large, late, n - 1);
      GrowingStep(key, small, large, late, n - 1, n);
      assert run[..|run| - 1] == GrowingRun(key, small, large, late, n - 1);
      assert Repeated(large, late, n) == Repeated(large, late, n - 1) + [Arrival(large, late)];
    }
  }

  lemma {:induction false} StateAfterFirst(b: Bucket, first: Arrival, rest: seq<Arrival>)
    ensures StateAfter(b, [first] + rest) == StateAfter(Acquire(b, first.policy, first.now).0, rest)
    decreases |rest|
  {
    var all := [first] + rest;
    if rest == [] {
      assert all[..0] == [] && all == [first];
      assert StateAfter(b, []) == b;
    } else {
      StateAfterFirst(b, first, rest[..|rest| - 1]);
      assert all[..|all| - 1] == [first] + rest[..|rest| - 1];
    }
  }

  lemma LastIsAdmitted(key: BucketKey, h: Hash, small: Policy, large: Policy, late: real, interval: real, n: nat)
    requires Grows(small, large, late, interval) && n == small.burst + 1
    ensures Allows(OneShard(interval), h, GrowingRun(key, small, large, late, n + 1), n + 1)
  {
    var run, next := GrowingRun(key, small, large, late, n + 1), n + 1;
    var b := StateAfter(Fresh(large, late), Repeated(large, late, n));
    ShardAfterGrowth(key, h, small, large, late, interval, n);
    GrowingStep(key, small, large, late, n, next);
    assert run[..next] == GrowingRun(key, small, large, late, n);
    LaterCheck(key, b, large, late, interval);
    assert ShardIndex(h, 1, key) == 0;
    RepeatedStep(Fresh(large, late), large, late, n, next);
    AdmitsHeld(Fresh(large, late), large, late, large.burst + 1, n);
  }

  lemma LastIsRefused(key: BucketKey, small: Policy, large: Policy, late: real, n: nat)
    requires small.requestsPerSec >= 1 && small.burst < large.burst && late >= 1.0 && n == small.burst + 1
    ensures !ReferenceAllows(GrowingRun(key, small, large, late, n + 1), n + 1)
  {
    var run, next := GrowingRun(key, small, large, late, n + 1), n + 1;
    var left := Bucket(small, small.burst as real, 0.0);
    GrowingStep(key, small, large, late, n, next);
    assert run[..next] == GrowingRun(key, small, large, late, n);
    OwnOfGrowth(key, small, large, late, n);
    var own, last := [Arrival(small, 0.0)] + Repeated(large, late, n), Arrival(large, late);
    assert (own + [last])[..next] == own;
    StateAfterFirst(Fresh(small, 0.0), Arrival(small, 0.0), Repeated(large, late, n));
    FirstAcquire(small, 0.0);
    RepeatedStep(left, large, late, n, next);
    FullByThen(small, late);
    AdmitsHeld(left, large, late, small.burst + 1, n);
  }

  /**
   Whenever a key's burst grows, eviction can show: there is a run in which the evicting limiter
   admits a request that one never-evicted bucket refuses.
   */
  lemma GrowingBurstShows(key: BucketKey, h: Hash, small: Policy, large: Policy, late: real, interval: real)
    requires Grows(small, large, late, interval)
    ensures var requests, last := GrowingRun(key, small, large, late, small.burst + 2), small.burst + 2;
            && NoBuckets(OneShard(interval)) && ShardClockForward(h, 1, requests, key)
            && Allows(OneShard(interval), h, requests, last) && !ReferenceAllows(requests, last)
  {
    LastIsAdmitted(key, h, small, large, late, interval, small.burst + 1);
    LastIsRefused(key, small, large, late, small.burst + 1);
  }
}
