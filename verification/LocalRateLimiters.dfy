/**
 The limiter as it runs: buckets mutated in place inside per-shard maps.
 Every method is proved against the state transformers of `RateLimiter`.
 */
module LocalRateLimiters {
  import TokenBuckets
  import RateLimiter

  type Policy = TokenBuckets.Policy
  type BucketKey = RateLimiter.BucketKey

  ghost predicate IsPowerOfTwo(n: nat) {
    n == 1 || (n > 1 && n % 2 == 0 && IsPowerOfTwo(n / 2))
  }

  class TokenBucket {
    var policy: Policy
    var tokens: real
    var lastRefill: real

    ghost function View(): TokenBuckets.Bucket
      reads this
    {
      TokenBuckets.Bucket(policy, tokens, lastRefill)
    }

    constructor (policy: Policy, now: real)
      ensures View() == TokenBuckets.Fresh(policy, now)
    {
      this.policy, tokens, lastRefill := policy, policy.Capacity(), now;
    }

    method Refill(now: real)
      modifies this
      ensures View() == TokenBuckets.Refill(old(View()), now)
    {
      var replenished := tokens + TokenBuckets.Elapsed(lastRefill, now) * policy.Rate();
      tokens := TokenBuckets.Min(replenished, policy.Capacity());
      lastRefill := now;
    }

    method Reconfigure(policy: Policy, now: real)
      modifies this
      ensures View() == TokenBuckets.Reconfigure(old(View()), policy, now)
    {
      if this.policy == policy {
        return;
      }
      Refill(now);
      tokens := TokenBuckets.Min(tokens, policy.Capacity());
      this.policy := policy;
    }

    method TryAcquire(policy: Policy, now: real) returns (admitted: bool)
      modifies this
      ensures (View(), admitted) == TokenBuckets.Acquire(old(View()), policy, now)
      ensures old(View()).InRange() ==> View().InRange()
    {
      if View().InRange() {
        TokenBuckets.AcquireStaysInRange(View(), policy, now);
      }
      Reconfigure(policy, now);
      Refill(now);
      if tokens < 1.0 {
        return false;
      }
      tokens := tokens - 1.0;
      return true;
    }

    method IsEvictable(now: real) returns (evictable: bool)
      modifies this
      ensures View() == TokenBuckets.Refill(old(View()), now)
      ensures evictable == TokenBuckets.Evictable(old(View()), now)
    {
      Refill(now);
      evictable := tokens >= policy.Capacity();
    }
  }

  class ShardState {
    var buckets: map<BucketKey, TokenBucket>
    var nextCleanupAt: real

    // No two keys share a bucket object.
    ghost predicate Valid()
      reads this
    {
      forall k1, k2 | k1 in buckets && k2 in buckets && k1 != k2 :: buckets[k1] != buckets[k2]
    }

    ghost function View(): RateLimiter.Shard
      reads this, buckets.Values
    {
      RateLimiter.Shard(map k | k in buckets :: buckets[k].View(), nextCleanupAt)
    }

    constructor (nextCleanupAt: real)
      ensures Valid() && buckets == map[] && this.nextCleanupAt == nextCleanupAt
    {
      buckets, this.nextCleanupAt := map[], nextCleanupAt;
    }

    // Refills every bucket and picks those that are not full.
    method Sweep(now: real) returns (kept: map<BucketKey, TokenBucket>)
      requires Valid()
      modifies buckets.Values
      ensures forall k | k in kept :: k in buckets && kept[k] == buckets[k]
      ensures forall k | k in buckets :: buckets[k].View() == TokenBuckets.Refill(old(buckets[k].View()), now)
      ensures forall k | k in buckets :: k in kept <==> !TokenBuckets.Evictable(old(buckets[k].View()), now)
    {
      var pending := buckets.Keys;
      kept := map[];
      while pending != {}
        invariant pending <= buckets.Keys && kept.Keys <= buckets.Keys - pending
        invariant forall k | k in kept :: kept[k] == buckets[k]
        invariant forall k | k in pending :: buckets[k].View() == old(buckets[k].View())
        invariant forall k | k in buckets && k !in pending ::
                    && buckets[k].View() == TokenBuckets.Refill(old(buckets[k].View()), now)
                    && (k in kept <==> !TokenBuckets.Evictable(old(buckets[k].View()), now))
        decreases pending
      {
        var key :| key in pending;
        var evictable := buckets[key].IsEvictable(now);
        if !evictable {
          kept := kept[key := buckets[key]];
        }
        pending := pending - {key};
      }
    }

    method MaybeCleanup(now: real, interval: real)
      requires Valid()
      modifies this, buckets.Values
      ensures Valid() && buckets.Values <= old(buckets.Values)
      ensures View() == RateLimiter.Cleanup(old(View()), now, interval)
    {
      if now < nextCleanupAt {
        return;
      }
      ghost var before := View().buckets;
      var kept := Sweep(now);
      buckets := kept;
      nextCleanupAt := now + interval;
      RateLimiter.RetainByKey(before, View().buckets, now);
    }

    // Acquires from the key's bucket, creating it first if there is none.
    method Acquire(key: BucketKey, policy: Policy, now: real) returns (admitted: bool)
      requires Valid()
      modifies this, buckets.Values
      ensures Valid() && fresh(buckets.Values - old(buckets.Values)) && nextCleanupAt == old(nextCleanupAt)
      ensures var bucket := if key in old(buckets) then old(buckets[key].View()) else TokenBuckets.Fresh(policy, now);
              && View().buckets == old(View().buckets)[key := TokenBuckets.Acquire(bucket, policy, now).0]
              && admitted == TokenBuckets.Acquire(bucket, policy, now).1
    {
      if key !in buckets {
        var bucket := new TokenBucket(policy, now);
        buckets := buckets[key := bucket];
      }
      admitted := buckets[key].TryAcquire(policy, now);
      assert View().buckets == old(View().buckets)[key := buckets[key].View()];
    }

    method Check(key: BucketKey, policy: Policy, now: real, interval: real) returns (admitted: bool)
      requires Valid()
      modifies this, buckets.Values
      ensures Valid() && fresh(buckets.Values - old(buckets.Values))
      ensures (View(), admitted)
           == RateLimiter.CheckShard(old(View()), interval, RateLimiter.Request(key, policy, now))
    {
      MaybeCleanup(now, interval);
      admitted := Acquire(key, policy, now);
    }
  }

  class LocalRateLimiters {
    const hash: RateLimiter.Hash
    const cleanupInterval: real
    var shards: array<ShardState>

    ghost predicate Valid()
      reads this, shards, shards[..]
    {
      && shards.Length > 0
      && (forall i | 0 <= i < shards.Length :: shards[i].Valid())
      && (forall i, j | 0 <= i < j < shards.Length ::
            shards[i] != shards[j] && shards[i].buckets.Values !! shards[j].buckets.Values)
    }

    ghost function Buckets(): set<TokenBucket>
      reads this, shards, shards[..]
    {
      set i, b | 0 <= i < shards.Length && b in shards[i].buckets.Values :: b
    }

    ghost function View(): RateLimiter.Limiter
      reads this, shards, shards[..], Buckets()
    {
      RateLimiter.Limiter(
        seq(shards.Length, i requires 0 <= i < shards.Length reads this, shards, shards[..], Buckets() => shards[i].View()),
        cleanupInterval)
    }

    constructor (shardCount: nat, cleanupInterval: real, now: real, hash: RateLimiter.Hash)
      ensures Valid() && fresh(shards) && fresh(shards[..])
      ensures this.hash == hash && this.cleanupInterval == cleanupInterval
      ensures IsPowerOfTwo(shards.Length) && shards.Length >= shardCount
      ensures shards.Length == 1 || shards.Length < 2 * shardCount
      ensures RateLimiter.NoBuckets(View())
    {
      var count := 1;
      while count < shardCount
        invariant IsPowerOfTwo(count) && (count == 1 || count < 2 * shardCount)
      {
        assert IsPowerOfTwo(2 * count);
        count := 2 * count;
      }
      this.hash, this.cleanupInterval := hash, cleanupInterval;
      var first := new ShardState(now + cleanupInterval);
      var cells := new ShardState[count](_ => first);
      for i := 1 to count
        invariant fresh(cells[..]) && cells[0] == first
        invariant forall j | 0 <= j < i :: cells[j].buckets == map[]
        invariant forall j, k | 0 <= j < k < i :: cells[j] != cells[k]
      {
        var shard := new ShardState(now + cleanupInterval);
        cells[i] := shard;
      }
      shards := cells;
    }

    // A check in one shard leaves the others alone, and shares no bucket with them.
    twostate lemma OtherShardsStay(i: nat)
      requires old(Valid()) && shards == old(shards) && shards[..] == old(shards[..]) && i < shards.Length
      requires shards[i].Valid() && fresh(shards[i].buckets.Values - old(shards[i].buckets.Values))
      requires forall j | 0 <= j < shards.Length && j != i :: unchanged(shards[j])
      requires forall b | b in old(Buckets()) && b !in old(shards[i].buckets.Values) :: unchanged(b)
      ensures Valid() && fresh(Buckets() - old(Buckets()))
      ensures forall j | 0 <= j < shards.Length && j != i :: shards[j].View() == old(shards[j].View())
    {
      forall j | 0 <= j < shards.Length && j != i
        ensures shards[j].View() == old(shards[j].View())
      {
        assert old(shards[j].buckets.Values) !! old(shards[i].buckets.Values);
      }
    }

    twostate lemma ViewChangesAt(i: nat)
      requires shards == old(shards) && shards[..] == old(shards[..]) && i < shards.Length
      requires forall j | 0 <= j < shards.Length && j != i :: shards[j].View() == old(shards[j].View())
      ensures View().shards == old(View().shards)[i := shards[i].View()]
    {
    }

    method CheckAt(key: BucketKey, policy: Policy, now: real) returns (admitted: bool)
      requires Valid()
      modifies shards[..], Buckets()
      ensures Valid() && shards == old(shards) && fresh(Buckets() - old(Buckets()))
      ensures (View(), admitted)
           == RateLimiter.Check(old(View()), hash, RateLimiter.Request(key, policy, now))
    {
      var i := RateLimiter.ShardIndex(hash, shards.Length, key);
      assert shards[i].buckets.Values <= Buckets();
      admitted := shards[i].Check(key, policy, now, cleanupInterval);
      OtherShardsStay(i);
      ViewChangesAt(i);
    }
  }
}
