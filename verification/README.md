# rginx: a verified model of its stateful cores

rginx is a reverse proxy. Around its networking sit a handful of small cores whose correctness is
easy to get wrong and hard to see from one function: a sharded, evicting rate limiter; a cache
index with six redundant structures, its disk loader, lazy invalidation and replica
synchronisation; a wait/notify protocol and a striped lock pool; configuration includes and
environment substitution; location and server-name choice; an access-log template language; and
slice-aligned byte ranges. This project models those cores in Dafny and proves what each of them
is for, over every input, every run or every interleaving.

`dafny verify dfyconfig.toml` checks the whole project.

## How it is organised

| modules | what they cover |
|---|---|
| `TokenBuckets`, `RateLimiter`, `LocalRateLimiters` | one bucket and its bound; the sharded limiter against one never-evicted bucket per key; the limiter as objects updated in place |
| `Wrappers`, `Strings` | the optional value and the text functions that the others share |
| `CacheTypes`, `IndexLaws`, `CacheIndexing`, `CacheFiles`, `CacheLoading` | the cache index, its invariant, and the load from disk with eviction |
| `Invalidation` | lazy invalidation rules against eager deletion |
| `SharedIndex`, `SharedContents`, `SharedSync`, `SharedDrift`, `SharedPeek`, `SharedReplica` | the shared operation log and what it leaves per key; synchronisation as a step system; how a replica drifts and exactly when it cannot; the check before the lock; the replica as an object |
| `SnapshotWait`, `SnapshotBus` | waiters against notifiers; what a delta reports |
| `StripeLocks` | striped reader-writer locks as a step system |
| `ConfigPaths`, `IncludeTree`, `IncludeTheorems`, `IncludeLaws`, `Preprocess`, `EnvExpand`, `ExpandJoin`, `EnvLaws`, `PlainFiles` | includes with cycle detection, and environment substitution inside RON strings, per line and for a whole file |
| `Router`, `ServerNames`, `RequestPath` | location choice, virtual-host choice, path normalisation |
| `AccessLog`, `AccessLogLaws` | the access-log template parser |
| `RangeSlice`, `RangeLaws`, `RangeTrim` | Range and Content-Range headers, slices, and cutting a streamed body |

Code that updates state in place is modelled by classes and loops, each proved against a pure
description; the theorems are about that description. Concurrent protocols are step functions
over every shared access, and their theorems quantify over all sequences of steps.

## Where the code does less than one might expect

Each of these is a property that the code does not have on all inputs. A lemma exhibits the failing
inputs or runs, and others say when the property holds.

- Eviction from the rate limiter shows when the burst of a key grows: the recreated bucket holds more
  tokens than the old one would have (`RateLimiter.GrowingBurstShows`). As long as it does not grow
  nothing shows for that key (`RateLimiter.ShardedMatchesReference`; exact for one eviction,
  `RateLimiter.EvictionInvisibleIff`).
- A stored entry stamped earlier than an existing rule is hidden at once, and clearing the rules
  brings hidden entries back (`Invalidation.LateStoreIsHidden`, `Invalidation.ClearRevivesEntry`;
  exact condition in `Invalidation.LazyRefinesEagerIff`).
- A starting process rebuilds the shared store under the epoch that it already has, with sequence
  numbers starting again. A replica of that epoch can take the new operations for a continuation of
  the old ones, or take its own position for the store's (`SharedDrift.RebuildOverEmptySegment`,
  `SharedDrift.RebuildByTwoProcesses`; exact conditions in `SharedDrift.RebuildHarmlessIff` and
  `SharedSync.RebuildKeepsInvIff`).
- A publisher takes the position that the store reports without looking at its own, so a replica
  that is behind, or of an old segment, jumps over what it has not applied, and a publish that fails
  leaves the index changed (`SharedDrift.PublishWhileBehind`, `SharedDrift.PublishFromOldEpoch`,
  `SharedDrift.FailedPublish`; exact conditions in `SharedSync.PublishKeepsInvIff` and
  `SharedDrift.PublishAgreesIff`).
- The check before the sync lock loads generation and epoch one after the other and can combine an
  old generation with a new epoch (`SharedPeek.TornReadIsStale`; exact condition in
  `SharedPeek.UnlockedReturnIff`, which two loads in one epoch meet).
- A replica skips a rule that it already has while the shared document repeats it, so a delta and
  a reload agree on the set of rules and not on the list (`SharedIndex.RepeatedRuleDiffers`,
  `SharedIndex.SameResultIff`); `SharedIndex.AgreeingRulesInvalidateAlike` shows that no entry is
  treated differently.
- Environment substitution runs line by line, so a RON string over two lines loses its place
  (`PlainFiles.SpanningStringIsMissed`). The expander is in step with what it writes exactly when
  every line but the last ends outside a string (`PlainFiles.InStepIffLinesEndOutside`), and then
  the file comes out as its whole text would (`PlainFiles.PlainFileKeepsMeaning`).
- The final push in the line splitter never happens (`ConfigPaths.SplitLinesKeepsText`), and the
  body trimmer never passes on trailers (`RangeTrim.TrimBody.PollFrame`).

## Model

| member | source | states |
|---|---|---|
| `TokenBuckets.RefillComposes` | crates/rginx-http/src/rate_limit/local.rs:144-150 | refilling at t1 and again at a later t2 equals refilling once at t2, so the moments of refilling cannot be seen |
| `TokenBuckets.RefillEarns` | crates/rginx-http/src/rate_limit/local.rs:144-150 | time that passes earns at the rate of the policy up to the capacity; a clock that reads back earns nothing |
| `TokenBuckets.AcquireSpendsAvailable` | crates/rginx-http/src/rate_limit/local.rs:117-142 | a check, with or without a change of policy, spends exactly from the tokens held plus those earned under the old policy, capped by the old and the new capacity, and admits exactly if that is a whole token |
| `TokenBuckets.RunStaysInRange` | crates/rginx-http/src/rate_limit/local.rs:112-155 | over every run, across any policy changes and clock readings, tokens stay within [0, capacity] |
| `TokenBuckets.WindowBudget` | crates/rginx-http/src/rate_limit/local.rs:112-155 | in every window of every run with a fixed policy, tokens left plus requests admitted are at most the capacity plus what the window earned |
| `TokenBuckets.WindowBound` | crates/rginx-http/src/rate_limit/local.rs:112-155 | every window admits at most burst + 1 + rate × forward clock movement requests, for any clock, even one that steps back |
| `TokenBuckets.AnyPolicyBudget` | crates/rginx-http/src/rate_limit/local.rs:112-155 | across any changes of policy, every window admits at most the tokens it opens with plus what its arrivals earn at the rates in force |
| `TokenBuckets.SpacedArrivalsAreAdmitted` | crates/rginx-http/src/rate_limit/local.rs:117-127 | arrivals spaced at least 1/rate apart are all admitted, so the bound is not met by refusing everyone |
| `RateLimiter.CheckKeepsTracking` | crates/rginx-http/src/rate_limit/local.rs:59-76 | a check for any key keeps the shard tracking every key: its own bucket answers and ends as the never-evicted one, another key is untouched except for refills and eviction when full |
| `RateLimiter.CleanupKeepsTracking` | crates/rginx-http/src/rate_limit/local.rs:157-164 | a cleanup keeps tracking: what it drops is full and will be recreated full |
| `RateLimiter.CleanupDropsFull` | crates/rginx-http/src/rate_limit/local.rs:157-164 | a cleanup that is due leaves no full bucket, drops only full ones and sets the next one |
| `RateLimiter.RunTracks` | crates/rginx-http/src/rate_limit/local.rs:59-164 | after every run from an empty limiter each key whose burst does not grow is tracked in its shard |
| `RateLimiter.ShardedMatchesReference` | crates/rginx-http/src/rate_limit/local.rs:59-164 | in every run, a request of a key whose burst does not grow, in a shard whose clock does not go back, gets from the sharded, evicting limiter the answer of one never-evicted bucket of that key; rates may change, and other keys and shards do as they like |
| `RateLimiter.ShardedBound` | crates/rginx-http/src/rate_limit/local.rs:59-164 | the sharded limiter lets through at most burst + 1 + rate × (t2 − t1) requests of a key in any stretch falling within [t1, t2] |
| `RateLimiter.ShardedBudget` | crates/rginx-http/src/rate_limit/local.rs:59-164 | across changes of policy whose burst does not grow, any stretch of a run lets through at most the tokens of the never-evicted bucket on entry plus what it earns there |
| `RateLimiter.EvictionInvisibleIff` | crates/rginx-http/src/rate_limit/local.rs:129-142 | a full bucket and a new one answer any number of requests under a policy alike exactly when that policy has no larger burst |
| `RateLimiter.GrowingBurstShows` | crates/rginx-http/src/rate_limit/local.rs:59-164 | failing runs: for every two policies of which the second has the larger burst and the first refills at all, some run with an eviction admits a request that the never-evicted bucket refuses |
| `LocalRateLimiters.TokenBucket.TryAcquire` | crates/rginx-http/src/rate_limit/local.rs:117-127 | in place: the bucket and the answer are those of the acquire whose spending AcquireSpendsAvailable pins down |
| `LocalRateLimiters.TokenBucket.IsEvictable` | crates/rginx-http/src/rate_limit/local.rs:129-132 | refills as a side effect and tells whether the bucket is full |
| `LocalRateLimiters.ShardState.MaybeCleanup` | crates/rginx-http/src/rate_limit/local.rs:157-164 | the shard becomes its cleaned-up value, no buckets appear, and bucket objects stay unshared |
| `LocalRateLimiters.ShardState.Check` | crates/rginx-http/src/rate_limit/local.rs:59-76 | one check changes the shard and answers as the pure check does |
| `LocalRateLimiters.LocalRateLimiters.constructor` | crates/rginx-http/src/rate_limit/local.rs:78-90 | the shard count is the next power of two and every shard is a separate empty object |
| `LocalRateLimiters.LocalRateLimiters.CheckAt` | crates/rginx-http/src/rate_limit/local.rs:59-103 | changes only the shard of the key, refines the pure sharded check, and keeps shards and buckets unaliased |
| `IndexLaws.RecountIsExact` | crates/rginx-http/src/cache/index.rs:4-17 | decrementing the replaced hash, then incrementing the new one, keeps counts exact even when both are the same |
| `IndexLaws.RegroupIsExact` | crates/rginx-http/src/cache/load.rs:130-137 | replacing an entry regroups its key exactly, also when the base key changes |
| `CacheIndexing.CacheIndex.InsertEntry` | crates/rginx-http/src/cache/index.rs:4-17 | the new contents and ticket, the replaced entry, and the whole index invariant |
| `CacheIndexing.CacheIndex.RemoveEntry` | crates/rginx-http/src/cache/index.rs:19-24 | entry and ticket are gone, the removed entry is returned, the invariant holds, also for a missing key |
| `CacheIndexing.CacheIndex.HashIsReferenced` | crates/rginx-http/src/cache/index.rs:26-28 | true exactly when some entry has the hash |
| `CacheIndexing.CacheIndex.RescheduleEntryAccess` | crates/rginx-http/src/cache/index.rs:45-49 | a present key gets a new ticket, an absent one changes nothing |
| `CacheIndexing.CacheIndex.OldestScheduledAccess` | crates/rginx-http/src/cache/index.rs:51-53 | the least scheduled access time, or none exactly when nothing is scheduled |
| `CacheIndexing.CacheIndex.PopOldestScheduledEntry` | crates/rginx-http/src/cache/index.rs:55-59 | takes out the slot that precedes all others; its entry stays present and unscheduled |
| `CacheIndexing.CacheIndex.Run` | crates/rginx-http/src/cache/index.rs:4-97 | any sequence of inserts, removals, reschedules and pops keeps the invariant |
| `CacheIndexing.CacheIndex.Upsert` | crates/rginx-http/src/cache/load.rs:130-137 | insert with size and variant bookkeeping: exact contents, saturating size, full consistency |
| `CacheIndexing.CacheIndex.Touch` | crates/rginx-http/src/cache/shared/delta.rs:52-59 | only a later access moves the entry, and its slot to the new access time with a new ticket; counts, groups and size stay |
| `CacheIndexing.CacheIndex.Drop` | crates/rginx-http/src/cache/load.rs:65-68 | removal with size and variant bookkeeping |
| `CacheLoading.SameHashSameKey` | crates/rginx-http/src/cache/load.rs:142-165 | two entries backed by files of one hash have the same key, because one metadata file names one key; hashes need not be injective |
| `CacheLoading.Storage.LoadCacheIndexEntry` | crates/rginx-http/src/cache/load.rs:142-208 | returns the entry exactly when metadata and body are in order (UsableIffLoaded, BackedIffOnDisk), and otherwise removes both files |
| `CacheFiles.BackedIffOnDisk` | crates/rginx-http/src/cache/load.rs:142-208 | an entry is the loaded one exactly when every field is what the files of its key say, with a body of the recorded length |
| `CacheFiles.UsableIffLoaded` | crates/rginx-http/src/cache/load.rs:142-186 | a hash is loaded exactly when its metadata parses, names a nonempty key of that digest with proper vary names, and the body has the recorded length |
| `CacheFiles.ScanTidies` | crates/rginx-http/src/cache/load.rs:77-140 | a scan leaves the two files of a hash as they are or removes both, and every unusable or orphaned one it meets is gone |
| `CacheLoading.Storage.Scan` | crates/rginx-http/src/cache/load.rs:77-140 | for any directory tree and listing order the index holds exactly the loadable hashes found, its size is the saturated sum, and only unusable files were removed |
| `CacheLoading.RemovingEvicted` | crates/rginx-http/src/cache/load.rs:65-69 | deleting the files of an evicted entry leaves the files of every survivor |
| `CacheLoading.Storage.EvictOldest` | crates/rginx-http/src/cache/load.rs:62-70 | one eviction takes the first entry in schedule order, or none exactly when the index is empty |
| `CacheLoading.Storage.EvictToLimit` | crates/rginx-http/src/cache/load.rs:58-72 | the loop ends with the tracked size within the limit; before each eviction it was above the limit, also where sizes have saturated; slots go in schedule order |
| `CacheLoading.OrderIsByAccess` | crates/rginx-http/src/cache/load.rs:55-72 | eviction in schedule order is eviction by last access: every evicted entry was last accessed no later than every survivor |
| `CacheLoading.Storage.LoadIndexFromDisk` | crates/rginx-http/src/cache/load.rs:49-75 | in terms of the files: every entry has parsed metadata of its key, a body of the recorded length and the fields of the metadata; every usable hash discovered was loaded; what was evicted was stored no later than what remains, then by ticket and key; each eviction was needed; the size fits and is exact if the sizes add up within 64 bits; and files of discovered hashes that are not indexed are gone |
| `Invalidation.PurgeKeepsAgreement` | crates/rginx-http/src/cache/invalidation.rs:17-45 | adding a rule hides exactly what deleting the entries the rule matches would remove |
| `Invalidation.PurgeOfKey` | crates/rginx-http/src/cache/invalidation.rs:25-45 | a purge of a key removes from sight that key if stored before it, and nothing else |
| `Invalidation.PurgeOfPrefix` | crates/rginx-http/src/cache/invalidation.rs:25-45 | a prefix purge removes exactly the older entries whose key starts with it |
| `Invalidation.PurgeOfTag` | crates/rginx-http/src/cache/invalidation.rs:25-45 | a tag purge removes exactly the older entries that carry the tag |
| `Invalidation.PurgeOfEverything` | crates/rginx-http/src/cache/invalidation.rs:25-45 | a full purge removes exactly the older entries |
| `Invalidation.LookupDecides` | crates/rginx-http/src/cache/lookup.rs:19-55 | a lookup serves, refills, bypasses, drops or misses, each exactly for the visible entry, kind, phase and revalidation that call for it |
| `Invalidation.LookupDrops` | crates/rginx-http/src/cache/lookup.rs:19-55 | a lookup takes away exactly an entry that is hidden or dead, and changes nothing else |
| `Invalidation.StoreKeepsAgreementIff` | crates/rginx-http/src/cache/invalidation.rs:25-32 | a store keeps lazy and eager caches equal exactly when no rule covers the stored entry already |
| `Invalidation.LookupKeepsAgreement` | crates/rginx-http/src/cache/lookup.rs:19-55 | a lookup, with the drops it decides on, keeps the two equal |
| `Invalidation.ClearKeepsAgreementIff` | crates/rginx-http/src/cache/invalidation.rs:17-23 | a clearing keeps lazy and eager caches equal exactly when no invalid entry is still stored |
| `Invalidation.LazyRefinesEagerIff` | crates/rginx-http/src/cache/invalidation.rs:17-45 | over every run of stores, purges, lookups, evictions and clearings, the entries not logically invalid are the eagerly purged cache throughout exactly when every store is newer than the rules that select it and every clearing finds nothing invalid |
| `Invalidation.LateStoreIsHidden` | crates/rginx-http/src/cache/invalidation.rs:25-32 | failing runs: an entry stamped before an existing rule is hidden as soon as it is stored |
| `Invalidation.ClearRevivesEntry` | crates/rginx-http/src/cache/invalidation.rs:17-23 | failing runs: a clearing brings back a purged entry |
| `Invalidation.LazyRefinesEager` | crates/rginx-http/src/cache/invalidation.rs:17-45 | in particular after every run with nondecreasing time and no clearing |
| `Invalidation.LookupUsesOnlyValid` | crates/rginx-http/src/cache/lookup.rs:19-55 | a lookup uses, refills or bypasses exactly when the eager cache would, with the same entry, so never with an invalid one |
| `SharedIndex.AgreeingRulesInvalidateAlike` | crates/rginx-http/src/cache/invalidation.rs:17-23 | rule lists with the same members invalidate the same entries |
| `SharedIndex.SameResultIff` | crates/rginx-http/src/cache/shared/delta.rs:66-71 | a replica that skips known rules ends with the document contents exactly unless the operation repeats a rule |
| `SharedIndex.RepeatedRuleDiffers` | crates/rginx-http/src/cache/shared/delta.rs:66-71 | such an operation: the document lists the rule twice, the replica once |
| `SharedIndex.CatchUpAgrees` | crates/rginx-http/src/cache/shared/delta.rs:26-77 | applying operations to a replica and to the document keeps the two in agreement |
| `SharedContents.EntryAfterUpsert` | crates/rginx-http/src/cache/shared/index_file/memory_backend/changes.rs:18-53 | after a replay the last upsert of a key decides, with the latest touch after it |
| `SharedContents.EntryAfterRemoval` | crates/rginx-http/src/cache/shared/index_file/memory_backend/changes.rs:18-53 | a removal that no upsert follows leaves no entry, whatever touches follow |
| `SharedContents.EntryWithoutWrite` | crates/rginx-http/src/cache/shared/index_file/memory_backend/changes.rs:18-53 | a key that is not written keeps its entry, but for later touches |
| `SharedContents.CountAfterWrite` | crates/rginx-http/src/cache/shared/index_file/memory_backend/changes.rs:18-53 | the last write of an admission count decides |
| `SharedContents.RulesAfterClear` | crates/rginx-http/src/cache/shared/index_file/memory_backend/changes.rs:18-53 | the rules are those added since the last clearing |
| `SharedIndex.ApplyOperationsDescribes` | crates/rginx-http/src/cache/shared/index_file/memory_backend.rs:272-297 | after publishing, the document holds the replayed log, and its bounded ring holds exactly the end of the log with the right sequence numbers |
| `SharedIndex.DeltaIsExactSuffix` | crates/rginx-http/src/cache/shared/index_file/memory_backend/changes.rs:129-147 | a delta is every operation after the cursor, in order, or empty where the ring has lost some |
| `SharedSync.DeltaExtends` | crates/rginx-http/src/cache/shared.rs:101-121 | the delta read under the lock is exactly what was published between the seen and the new position |
| `SharedSync.StepKeepsInvIff` | crates/rginx-http/src/cache/shared.rs:52-157 | every step of every task, local or remote publish, failed publish, new segment and rebuild keeps the replica in step exactly when it is guarded: a publisher has applied all that the store holds and succeeds, and a rebuild meets no position of its epoch but one that amounts to the rebuilt store |
| `SharedSync.EveryRunStaysInStepIff` | crates/rginx-http/src/cache/shared.rs:52-157 | over every run, in every interleaving, the replica has applied each operation of its epoch up to its position exactly once and in order, exactly when every action of the run is guarded |
| `SharedSync.PublishKeepsInvIff` | crates/rginx-http/src/cache/shared.rs:132-157 | a publish keeps the replica in step exactly when it is empty, or succeeds from the store's epoch and sequence number |
| `SharedSync.RebuildKeepsInvIff` | crates/rginx-http/src/cache/shared/index_file/memory_backend.rs:243-270 | a rebuild under the old epoch keeps the replica in step exactly when every position and fetched target in use is of another epoch, or holds no operations, is not beyond the rebuilt generation and agrees with its contents |
| `SharedSync.NewSegmentKeepsInv` | crates/rginx-http/src/cache/shared/index_file/memory_backend.rs:103-125 | a new segment, empty and under a new epoch, leaves every replica in step |
| `SharedSync.StartIsInStep` | crates/rginx-http/src/cache/shared/bootstrap.rs:17-73 | a replica that has just loaded, or just rebuilt, the store satisfies the invariant |
| `SharedSync.EarlyReturnIsCurrent` | crates/rginx-http/src/cache/shared.rs:77-95 | a replica in step for which the check under the lock returns early is current and agrees with the store |
| `SharedSync.DeltaEqualsReload` | crates/rginx-http/src/cache/shared.rs:76-130 | the delta path and the reload path both end at the position of the store, in agreement with its contents |
| `SharedDrift.WholeSyncIsSynced` | crates/rginx-http/src/cache/shared.rs:76-130 | one undisturbed sync as a function of the store and the replica |
| `SharedDrift.RebuildHarmlessIff` | crates/rginx-http/src/cache/shared/index_file/memory_backend.rs:243-270 | after a rebuild under the old epoch, every future sync brings the replica into agreement, whatever is published, exactly when the replica is of another epoch, or not beyond the rebuilt store, without operations and in agreement; with a ring of changes this is the condition of the run theorem |
| `SharedDrift.PublishAgreesIff` | crates/rginx-http/src/cache/shared.rs:132-157 | publisher and store agree after every possible publish exactly when they agreed before, whatever the positions |
| `SharedDrift.RebuildOverEmptySegment` | crates/rginx-http/src/cache/shared/bootstrap.rs:13-73 | failing run: a replica of an empty segment that another process rebuilds ends current without the rebuilt contents |
| `SharedDrift.RebuildByTwoProcesses` | crates/rginx-http/src/cache/shared/bootstrap.rs:13-73 | failing run: two processes rebuild and publish; the first sees its own position and never syncs |
| `SharedDrift.PublishWhileBehind` | crates/rginx-http/src/cache/shared.rs:132-157 | failing run: publishing while behind jumps over an operation of another process |
| `SharedDrift.PublishFromOldEpoch` | crates/rginx-http/src/cache/shared.rs:132-157 | failing run: a replica of an old segment publishes and takes the new segment's position |
| `SharedDrift.FailedPublish` | crates/rginx-http/src/cache/shared.rs:147-156 | failing run: a publish fails and the changed index looks current |
| `SharedPeek.UnlockedReturnIff` | crates/rginx-http/src/cache/shared.rs:57-74 | the check before the lock, with a generation loaded before and the epoch loaded in any state in step: no guarded continuation returns early in disagreement with the store exactly when the store has left that epoch, or the generation is not beyond the position of the replica, or it lies between the replica and the store, no unnoticed rebuild can fall below it, and at the generation of the store itself all contents in place or about to be agree |
| `SharedPeek.SameEpochIsSound` | crates/rginx-http/src/cache/shared.rs:57-74 | in particular two loads that see one epoch are sound in every guarded run |
| `SharedPeek.TornReadIsStale` | crates/rginx-http/src/cache/shared.rs:57-74 | failing run: the two loads straddle a reload, and the check returns early although an entry is missing |
| `SharedReplica.ReplicaIndex.ApplyDelta` | crates/rginx-http/src/cache/shared/delta.rs:26-77 | a whole delta on the live index shows the caught-up contents |
| `SnapshotWait.StepKeepsInv` | crates/rginx-http/src/state/snapshot_bus.rs:40-60 | every atomic step of every waiter and notifier keeps the wait invariant |
| `SnapshotWait.NoLostWakeUp` | crates/rginx-http/src/state/snapshot_bus.rs:40-60 | in every interleaving a blocked waiter whose version has passed is signalled or has a notifier pending, and without a timeout only newer versions are returned |
| `SnapshotWait.StartKeepsInv` | crates/rginx-http/src/state/snapshot_bus.rs:40-60 | the state without waiters satisfies the wait invariant |
| `SnapshotWait.PassedWaiterReturns` | crates/rginx-http/src/state/helpers.rs:40-73 | once the notifiers have finished, such a waiter returns the current version by its own next three steps |
| `SnapshotBus.DeltaIsExact` | crates/rginx-http/src/state/snapshot_bus.rs:62-243 | a delta since a version reports a module or a target exactly when a mark after that version touched it |
| `SnapshotBus.ChangedTargetsSince` | crates/rginx-http/src/state/snapshot_bus.rs:170-182 | the changed names, sorted, each once |
| `StripeLocks.WriteOrder` | crates/rginx-http/src/cache/io.rs:38-48 | the stripes of all hashes, ascending and without repeats |
| `StripeLocks.StartKeepsInv` | crates/rginx-http/src/cache/io.rs:23-28 | the unused pool satisfies the lock invariant |
| `StripeLocks.EveryRunIsExclusive` | crates/rginx-http/src/cache/io.rs:29-52 | in every run, with cancellation at any point, no two tasks hold a stripe with one of them writing |
| `StripeLocks.NoWaitCycle` | crates/rginx-http/src/cache/io.rs:29-52 | no chain of tasks waiting for each other closes into a cycle |
| `StripeLocks.SomeTaskCanStep` | crates/rginx-http/src/cache/io.rs:29-52 | while a task is unfinished, some task is enabled to step |
| `StripeLocks.StepUsesWork` | crates/rginx-http/src/cache/io.rs:29-52 | each task step uses up exactly one unit of a finite amount of work |
| `StripeLocks.AllServed` | crates/rginx-http/src/cache/io.rs:29-52 | from every reachable state enabled steps serve all tasks, in exactly as many steps as there is work |
| `ConfigPaths.NormalizePathForStack` | crates/rginx-config/src/load/include.rs:107-135 | the component loop computes the normal form |
| `ConfigPaths.NormalizeIdempotent` | crates/rginx-config/src/load/include.rs:107-135 | a normal form is its own normal form |
| `ConfigPaths.ClimbCancels` | crates/rginx-config/src/load/include.rs:123-135 | a name and `..` after it cancel out, `.` does nothing, and the root is its own parent |
| `ConfigPaths.JoinRespectsNormalForm` | crates/rginx-config/src/load/include.rs:25-39 | resolving against two spellings of a directory leads to one normal form |
| `ConfigPaths.SplitLinesKeepsText` | crates/rginx-config/src/load/include.rs:92-105 | the lines concatenate to the text, each but the last ends in its only newline, and the extra push never happens |
| `IncludeTheorems.ResolveRespectsNormalForm` | crates/rginx-config/src/load/include.rs:25-90 | an include resolves to the same files from two spellings of the including file |
| `IncludeLaws.PlainPattern` | crates/rginx-config/src/load/include.rs:25-39 | a plain include names one file, relative to the directory of the including file or absolute |
| `IncludeLaws.RonPattern` | crates/rginx-config/src/load/include.rs:41-90 | `*.ron` names the files of the directory in the order of the listing |
| `IncludeLaws.OtherPatterns` | crates/rginx-config/src/load/include.rs:41-90 | a missing directory names nothing; a file in its place, another glob and an empty pattern are errors |
| `IncludeLaws.TerminatedMeans` | crates/rginx-config/src/load/preprocess.rs:53-56 | an included text gets a final newline exactly if the line has one and the text has none |
| `IncludeLaws.LinesInOrder` | crates/rginx-config/src/load/preprocess.rs:38-61 | the text of a file is its lines in order, each include replaced by the texts of its files in order |
| `IncludeTheorems.SameTree` | crates/rginx-config/src/load/preprocess.rs:16-65 | a file has at most one include tree, whichever path leads to it |
| `IncludeTheorems.SucceedsIffTree` | crates/rginx-config/src/load/preprocess.rs:16-65 | preprocessing succeeds exactly when a finite include tree exists, and then returns its text |
| `IncludeTheorems.FailsIffCyclic` | crates/rginx-config/src/load/preprocess.rs:16-65 | if every file that includes lead to is readable and well formed, it fails exactly when an include cycle is reachable |
| `IncludeTheorems.CycleErrorIsReal` | crates/rginx-config/src/load/preprocess.rs:21-32 | whatever else is wrong, a reported cycle is a reachable one |
| `IncludeTree.PushShrinks` | crates/rginx-config/src/load/preprocess.rs:21-34 | the termination measure: pushing a known file shrinks the known files not on the stack |
| `Preprocess.PreprocessFile` | crates/rginx-config/src/load/preprocess.rs:16-65 | the stack-and-buffer form computes the walk and restores the stack on success |
| `Preprocess.PreprocessSource` | crates/rginx-config/src/load/preprocess.rs:12-65 | end to end: success exactly for a finite tree with its text as result, and on well-formed files failure exactly for a reachable cycle |
| `EnvExpand.EscapedReadsBack` | crates/rginx-config/src/load/env_expand.rs:101-114 | an escaped value cannot leave its string and unescapes to exactly the value |
| `EnvExpand.AdvanceScans` | crates/rginx-config/src/load/env_expand.rs:6-72 | each step of the expander moves a plain scanner of its output to the expander mode and stands for its meaning |
| `EnvExpand.ScannerStaysInStep` | crates/rginx-config/src/load/env_expand.rs:6-72 | a plain string scanner over the output is where the expander is, from every point on |
| `EnvExpand.ExpansionPreservesMeaning` | crates/rginx-config/src/load/env_expand.rs:6-72 | for each call: read as RON, the output is the template with text outside strings unchanged and each placeholder replaced by exactly its value |
| `EnvExpand.PlainTextIsUnchanged` | crates/rginx-config/src/load/env_expand.rs:6-72 | text without a dollar sign passes through as it is |
| `EnvExpand.Expand` | crates/rginx-config/src/load/env_expand.rs:6-72 | the flag-driven loop computes the expansion, with its flags equal to the state of the scanner at every step |
| `EnvLaws.SetVariable` | crates/rginx-config/src/load/env_expand.rs:74-100 | a variable that is set writes its escaped value, with or without a default, and the text goes on as before |
| `EnvLaws.UnsetVariable` | crates/rginx-config/src/load/env_expand.rs:74-100 | a variable that is not set writes its escaped default, divided off by the first `:-`, or is an error without one |
| `EnvLaws.GarbledVariable` | crates/rginx-config/src/load/env_expand.rs:74-100 | a value that is not Unicode is an error, with or without a default |
| `EnvLaws.InvalidName` | crates/rginx-config/src/load/env_expand.rs:74-100 | anything but name characters in place of the name is an error |
| `EnvLaws.UnterminatedPlaceholder` | crates/rginx-config/src/load/env_expand.rs:48-58 | a placeholder without a closing brace is an error |
| `EnvExpand.EscapedIsOneLine` | crates/rginx-config/src/load/env_expand.rs:101-114 | an escaped value holds no line break, carriage return or tab |
| `PlainFiles.InStepIffLinesEndOutside` | crates/rginx-config/src/load/preprocess.rs:38-61 | run line by line, the expander starts every line in the state of a scanner over the whole output exactly when every line but the last ends outside a string |
| `PlainFiles.LineByLineIsWholeText` | crates/rginx-config/src/load/preprocess.rs:38-61 | then expanding line by line is expanding the whole text at once |
| `PlainFiles.PlainFileKeepsMeaning` | crates/rginx-config/src/load/preprocess.rs:38-61 | then a file without includes comes out of the preprocessor as the expansion of its whole text, and reads as RON as what that text stands for |
| `PlainFiles.SpanningStringIsMissed` | crates/rginx-config/src/load/preprocess.rs:38-61 | failing input: in a string over two lines the second line is copied where the whole text would be expanded |
| `Router.BeatsIsStrictTotalOrder` | crates/rginx-http/src/router.rs:100-119 | the specificity order is a strict total order on candidates |
| `Router.BestImproves` | crates/rginx-http/src/router.rs:100-119 | keeping the more specific candidate keeps the best of all routes seen |
| `Router.ChosenIsUnique` | crates/rginx-http/src/router.rs:29-77 | the declarative rule names at most one route |
| `Router.ChosenMatches` | crates/rginx-http/src/router.rs:29-77 | the chosen route matches, and none is chosen exactly when no route matches |
| `Router.SelectRoute` | crates/rginx-http/src/router.rs:29-119 | the one-pass scan chooses the route that the rule names, spelled out on paths and positions: an exact route before all others, a preferred prefix that is the best prefix before regexes, the first regex before other prefixes; longest, then preferred, then more gRPC fields, then earliest; none exactly if none fits |
| `Router.FollowsIsUnique` | crates/rginx-http/src/router.rs:29-77 | the rule as spelled out names at most one route |
| `Router.FitsIffMatches` | crates/rginx-core/src/config/route.rs:121-183 | matching means: the exact path, the prefix itself or something below it, the regex; and every gRPC field that the route fixes |
| `ServerNames.DotWildcardIsUnion` | crates/rginx-core/src/config/server_name.rs:32-74 | a dot wildcard matches the bare name and whatever the star wildcard matches |
| `ServerNames.StarMatchesBelow` | crates/rginx-core/src/config/server_name.rs:52-60 | `*.suffix` matches exactly the names that end in a dot and the suffix |
| `ServerNames.TrailingMatchesGoingOn` | crates/rginx-core/src/config/server_name.rs:62-71 | `prefix.*` matches exactly the names that start with the prefix and a dot and go on |
| `ServerNames.PlainMatchesItself` | crates/rginx-core/src/config/server_name.rs:73-74 | a plain name matches itself only |
| `ServerNames.MatchesAreRanked` | crates/rginx-core/src/config/server_name.rs:9-18 | exact before suffix before prefix, and of two of a kind the longer |
| `ServerNames.HostIsNormalized` | crates/rginx-core/src/config/server_name.rs:76-84 | the port, the case and the brackets of a host do not matter |
| `ServerNames.EqualPriorityMeansSameName` | crates/rginx-core/src/config/server_name.rs:9-74 | patterns matching a host with equal priority are the same, or the dot and star forms of one suffix |
| `ServerNames.BestPatternIsMaximum` | crates/rginx-core/src/config/server_name.rs:20-30 | the choice matches with maximal priority and every other matching pattern ranks strictly below it |
| `ServerNames.BestPatternIgnoresOrder` | crates/rginx-http/src/tls/sni.rs:27-39 | any permutation or repetition of the patterns gives the same choice |
| `ServerNames.TieGoesToFirstName` | crates/rginx-core/src/config/server_name.rs:20-30 | of two patterns of equal priority the alphabetically first is taken |
| `ServerNames.SelectVhost` | crates/rginx-http/src/router.rs:122-144 | the earliest virtual host attaining the maximum over all patterns, or the default when none matches |
| `ServerNames.ExactNameWins` | crates/rginx-http/src/router.rs:122-144 | the first virtual host that lists the host name itself goes before all that match by wildcard |
| `ServerNames.NoMatchRanksHigher` | crates/rginx-http/src/router.rs:122-144 | no name of any virtual host ranks above the one taken |
| `ServerNames.SelectionIsUnique` | crates/rginx-http/src/router.rs:122-144 | that description fits only one virtual host |
| `RequestPath.WalkSegments` | crates/rginx-http/src/request_target.rs:35-47 | the segment loop is the stack evaluation, including the climb above the root |
| `RequestPath.NormalizeRequestPath` | crates/rginx-http/src/request_target.rs:27-69 | the result is the stack evaluation of the segments, rendered, and canonical |
| `RequestPath.NormalizedIsCanonical` | crates/rginx-http/src/request_target.rs:27-69 | `*`, or a leading slash and segments that are neither empty nor `.` nor `..` |
| `RequestPath.CanonicalIsFixed` | crates/rginx-http/src/request_target.rs:27-69 | canonical paths are left alone |
| `RequestPath.NormalizeIdempotent` | crates/rginx-http/src/request_target.rs:27-69 | normalising twice is normalising once |
| `RequestPath.ClimbCancels` | crates/rginx-http/src/request_target.rs:37-47 | a segment and `..` after it cancel out; empty segments and `.` do nothing |
| `RequestPath.FailsIffEscapes` | crates/rginx-http/src/request_target.rs:40-44 | the walk gives up exactly when some prefix of the path climbs more often than it descends |
| `RequestPath.PrefixMatchesSegments` | crates/rginx-core/src/config/route.rs:155-167 | on canonical paths a prefix without trailing slash matches exactly when its segments are a prefix of those of the path |
| `RequestPath.SlashPrefixMatchesSegments` | crates/rginx-core/src/config/route.rs:155-167 | with a trailing slash it matches exactly what lies strictly below, and itself only with the slash |
| `AccessLog.Parse` | crates/rginx-core/src/config/access_log.rs:64-129 | the index-driven loop parses token by token |
| `AccessLog.ParseConsumesTemplate` | crates/rginx-core/src/config/access_log.rs:64-129 | the tokens tile the template from start to end and each gives one segment |
| `AccessLog.Render` | crates/rginx-core/src/config/access_log.rs:135-246 | the loop appends what each segment renders to |
| `AccessLog.PrintParseRenders` | crates/rginx-core/src/config/access_log.rs:64-129 | any segments printed with `$` doubled and variables as `${name}` parse to a format that renders the same for all values |
| `AccessLogLaws.YieldsBare` | crates/rginx-core/src/config/access_log.rs:106-121 | `$name` before a character that cannot belong to the name yields what `${name}` does |
| `AccessLogLaws.YieldsLoneDollar` | crates/rginx-core/src/config/access_log.rs:111-116 | a dollar that opens nothing is a dollar |
| `AccessLogLaws.UnknownVariableFails` | crates/rginx-core/src/config/access_log.rs:90-119 | an unknown variable is an error in both forms |
| `RangeSlice.HeaderParses` | crates/rginx-http/src/cache/request.rs:192-230 | the upstream header parses back to exactly the cache range |
| `RangeSlice.AlignEncloses` | crates/rginx-http/src/cache/request.rs:211-225 | the slice starts on the grid, encloses the request and fits 64 bits, with saturation |
| `RangeSlice.AlignedIffWithinSlice` | crates/rginx-http/src/cache/request.rs:211-225 | a range is cacheable exactly when no slice boundary falls inside it |
| `RangeSlice.SlicesEqualOrDisjoint` | crates/rginx-http/src/cache/request.rs:211-225 | two aligned requests have equal cache ranges when they start in one slice and disjoint ones otherwise |
| `RangeSlice.RequestRange` | crates/rginx-http/src/cache/request.rs:170-190 | a request range is always within its cache range and 64 bits |
| `RangeLaws.CachedIff` | crates/rginx-http/src/cache/request.rs:170-225 | a single `bytes=a-b` is cached as a range exactly if the policy caches ranges, the method is GET or HEAD, the range is not empty and lies within one slice, and then for these bytes |
| `RangeLaws.NotCached` | crates/rginx-http/src/cache/request.rs:181-197 | no Range header, several, or one with several ranges is not |
| `RangeLaws.AcceptedIff` | crates/rginx-http/src/cache/request.rs:138-168 | a response is accepted exactly if it starts where the slice does, reaches the end of the request and stays within the slice |
| `RangeLaws.UncutIsWhollyRequested` | crates/rginx-http/src/cache/entry/response.rs:52-63 | an accepted partial response that is passed on uncut is one of which every byte was asked for |
| `RangeLaws.SpacedBoundsParse` | crates/rginx-http/src/cache/request.rs:192-203 | white space around the bounds does not matter |
| `RangeSlice.RewriteIsFixpoint` | crates/rginx-http/src/cache/request.rs:120-136 | parsing the rewritten header gives the slice as both request and cache range, so rewriting twice is rewriting once, for all requests |
| `RangeSlice.KeySuffixIsInjective` | crates/rginx-http/src/cache/request.rs:96-101 | requests with the same key suffix share one cache range |
| `RangeSlice.Headers.ApplyUpstreamRange` | crates/rginx-http/src/cache/request.rs:120-136 | in place: only the Range header changes, and only for a cacheable range |
| `RangeSlice.ContentRangeReadsBack` | crates/rginx-http/src/cache/entry/response.rs:129-199 | a written Content-Range reads back as itself |
| `RangeSlice.AcceptedResponseIsTrimmed` | crates/rginx-http/src/cache/entry/response.rs:46-104 | an accepted response is cut to exactly the requested bytes, inside the announced body and without overflow; the plan is invalid exactly for a malformed total |
| `RangeTrim.TrimBody.PollFrame` | crates/rginx-http/src/cache/store/range.rs:34-100 | each poll pays off a nonempty part of what is owed, waits, or closes with the verdict; trailers are never passed on |
| `RangeTrim.PollSteps` | crates/rginx-http/src/cache/store/range.rs:34-100 | passing over skipped chunks, one poll always pays, waits or closes correctly |
| `RangeTrim.FinishedRun` | crates/rginx-http/src/cache/store/range.rs:34-100 | every finished run delivers exactly the window, and ends with an error exactly when the body is too short for it |
| `RangeTrim.PollingEnds` | crates/rginx-http/src/cache/store/range.rs:34-100 | polling finishes every stream, with at most one poll more than the inner body takes |
| `RangeTrim.ChunkingIsInvisible` | crates/rginx-http/src/cache/store/range.rs:34-100 | the chunking and the pauses of the body make no difference |
| `RangeTrim.ClientGetsRequestedBytes` | crates/rginx-http/src/cache/entry/response.rs:46-104 | from Content-Range to client: an accepted body of the announced length yields exactly the requested bytes |

## Left out

- Floating-point rounding: token counts are exact reals.
- Shard masking: the bit mask over a power-of-two number of shards is written as the remainder by that number; the hash function is a parameter.
- The largest burst: `burst + 1` is 32-bit arithmetic in the code, so its overflow at a burst of 2^32 − 1 is not modelled.
- Mutexes: a check on a shard, an index operation and a snapshot mark each run as one step; lock poisoning does not appear.
- Entry fields that the modelled operations do not read: vary headers, grace, keep and stale deadlines, and the must-revalidate flag apart from its effect as a default.
- File-system failures: removing a cache file succeeds, directories do not change during a load, and there are no symbolic links.
- The legacy and test-only index operations: rebuilding the access schedule, hit-for-pass and equality helpers would only add easy members.
- Fill locks, hot entries, admission decisions, store maintenance and the remaining phases of a lookup.
- Shared-memory layout: the store is its documented behaviour over an operation log; saturation of its 64-bit generation and sequence numbers is not modelled, and the clock reading that a new segment takes as its epoch is assumed to be new.
- The index change that a caller makes before it publishes is taken to be that of the published operations.
- Weak memory ordering: atomics are sequentially consistent, and a `Notified` future receives the notifications issued after its creation, as tokio documents.
- Interleavings inside one snapshot mark: `SnapshotBus.DeltaIsExact` takes each mark as one step, while `SnapshotWait` splits it.
- The tokio read-write lock itself: stripes are fair locks granted in order of arrival.
- Parsing an include directive and a glob: they are parameters that give a pattern; a pattern is absolute or relative and names one file or the `.ron` files of a directory.
- The working directory: paths are taken after joining it.
- Regular expressions, IP addresses and networks, and the table of access-log variables: parameters.
- UTF-8 lengths: texts are sequences of characters and lengths count characters.
- Header values that are not visible ASCII are read as unreadable; other headers of a trimmed response, apart from Content-Range, are not modelled.
- TLS, ACME, OCSP, connection handling, the admin interface, health checks, upstream selection, and configuration validation and compilation.
