/**
 Rebuilding the cache index from the cache directory: the recursive scan, which discards
 unusable files as it goes, and the eviction that brings the result under the size limit.
 */
module CacheLoading {
  import opened CacheTypes
  import opened CacheFiles
  import opened IndexLaws
  import opened CacheIndexing
  import opened Wrappers
  import Strings

  // The entries are exactly the loadable ones among the given hashes.
  ghost predicate Reflects(entries: map<Key, Entry>, disk: Disk, digest: Digest, hashes: set<Hash>) {
    && (forall k | k in entries :: digest(k) in hashes && Backed(disk, digest, k, entries[k]))
    && (forall h | h in hashes && LoadEntry(disk, digest, h).Some? :: LoadEntry(disk, digest, h).value.0 in entries)
  }

  // Cleaning up took away files of unloadable hashes only.
  ghost predicate OnlyUnusableRemoved(before: Disk, after: Disk, digest: Digest) {
    && (forall h | LoadEntry(before, digest, h).Some? :: LoadEntry(after, digest, h) == LoadEntry(before, digest, h))
    && (forall h | LoadEntry(before, digest, h).None? :: LoadEntry(after, digest, h).None?)
  }

  lemma RemovingUnusable(disk: Disk, digest: Digest, hash: Hash)
    requires LoadEntry(disk, digest, hash).None?
    ensures OnlyUnusableRemoved(disk, Removed(disk, hash), digest)
  {
  }

  lemma DiscoveredInPrefix(children: seq<DirEntry>, i: nat)
    requires i < |children|
    ensures Discovered(Directory(children[..i + 1])) == Discovered(Directory(children[..i])) + Discovered(children[i])
  {
    assert children[..i + 1] == children[..i] + [children[i]];
  }

  ghost function FoundBefore(found: set<Hash>, children: seq<DirEntry>, i: nat): set<Hash>
    requires i <= |children|
  {
    found + Discovered(Directory(children[..i]))
  }

  lemma FoundSteps(found: set<Hash>, children: seq<DirEntry>, i: nat)
    requires i < |children|
    ensures FoundBefore(found, children, i + 1) == FoundBefore(found, children, i) + Discovered(children[i])
  {
    DiscoveredInPrefix(children, i);
  }

  lemma FoundEnds(found: set<Hash>, children: seq<DirEntry>)
    ensures FoundBefore(found, children, 0) == found
    ensures FoundBefore(found, children, |children|) == found + Discovered(Directory(children))
  {
    assert children[..|children|] == children;
  }

  // One canonical metadata file fixes one key per hash.
  lemma SameHashSameKey(disk: Disk, digest: Digest, k1: Key, e1: Entry, k2: Key, e2: Entry)
    requires Backed(disk, digest, k1, e1) && Backed(disk, digest, k2, e2) && e1.hash == e2.hash
    ensures k1 == k2
  {
  }

  class Storage {
    var disk: Disk

    method RemoveCacheFiles(hash: Hash)
      modifies this
      ensures disk == Removed(old(disk), hash)
    {
      disk := Disk(disk.metadata - {hash}, disk.bodies - {hash});
    }

    method LoadCacheIndexEntry(digest: Digest, hash: Hash) returns (loaded: Option<(Key, Entry)>)
      modifies this
      ensures loaded == LoadEntry(old(disk), digest, hash)
      ensures disk == if loaded.None? then Removed(old(disk), hash) else old(disk)
    {
      if hash !in disk.metadata || disk.metadata[hash].Malformed? {
        RemoveCacheFiles(hash);
        return None;
      }
      var metadata := disk.metadata[hash].metadata;
      if metadata.key == [] || digest(metadata.key) != hash {
        RemoveCacheFiles(hash);
        return None;
      }
      if hash !in disk.bodies || disk.bodies[hash] > U64_MAX {
        RemoveCacheFiles(hash);
        return None;
      }
      if disk.bodies[hash] != metadata.bodySizeBytes {
        RemoveCacheFiles(hash);
        return None;
      }
      if !metadata.varyNamesParse {
        RemoveCacheFiles(hash);
        return None;
      }
      return Some((metadata.key, EntryFrom(hash, metadata)));
    }

    // The scan's invariant, for the hashes found so far.
    ghost predicate Scanned(index: CacheIndex, digest: Digest, before: Disk, found: set<Hash>)
      reads this, index
    {
      && index.Consistent()
      && OnlyUnusableRemoved(before, disk, digest)
      && Reflects(index.entries, before, digest, found)
      && index.currentSizeBytes == SaturatingAdd(TotalSize(index.entries), 0)
    }

    method ScanMetadataName(index: CacheIndex, digest: Digest, hash: Hash, ghost before: Disk, ghost found: set<Hash>)
      requires Scanned(index, digest, before, found)
      modifies this, index
      ensures Scanned(index, digest, before, found + {hash})
      ensures disk == ScanDisk(old(disk), digest, MetadataName(hash))
    {
      var loaded := LoadCacheIndexEntry(digest, hash);
      if loaded.None? {
        RemovingUnusable(old(disk), digest, hash);
        ReflectsUnusable(index.entries, before, digest, found, hash);
        return;
      }
      var (key, entry) := loaded.value;
      ReflectsLoaded(index.entries, before, digest, found, hash);
      UpsertKeepsSize(index.entries, index.currentSizeBytes, key, entry);
      index.Upsert(key, entry);
    }

    method ScanBodyName(index: CacheIndex, digest: Digest, hash: Hash, ghost before: Disk, ghost found: set<Hash>)
      requires Scanned(index, digest, before, found)
      modifies this
      ensures Scanned(index, digest, before, found)
      ensures disk == ScanDisk(old(disk), digest, BodyName(hash))
    {
      if hash !in disk.metadata {
        RemovingUnusable(disk, digest, hash);
        RemoveCacheFiles(hash);
      }
    }

    /** Scans one directory entry, recursively. Whatever the order of the listing and however
        often a name turns up, the index ends up holding exactly the loadable hashes found. */
    method Scan(index: CacheIndex, digest: Digest, e: DirEntry, ghost before: Disk, ghost found: set<Hash>)
      requires Scanned(index, digest, before, found)
      modifies this, index
      ensures Scanned(index, digest, before, found + Discovered(e))
      ensures disk == ScanDisk(old(disk), digest, e)
      decreases e
    {
      match e
      case Directory(children) =>
        FoundEnds(found, children);
        ScanChildren(index, digest, children, before, found);
      case BodyName(hash) =>
        assert found + Discovered(e) == found;
        ScanBodyName(index, digest, hash, before, found);
      case MetadataName(hash) =>
        ScanMetadataName(index, digest, hash, before, found);
      case _ =>
        assert found + Discovered(e) == found;
    }

    method ScanChildren(
        index: CacheIndex, digest: Digest, children: seq<DirEntry>, ghost before: Disk, ghost found: set<Hash>)
      requires Scanned(index, digest, before, found)
      modifies this, index
      ensures Scanned(index, digest, before, FoundBefore(found, children, |children|))
      ensures disk == ScanAll(old(disk), digest, children)
      decreases children
    {
      FoundEnds(found, children);
      ghost var soFar := found;
      for i := 0 to |children|
        invariant soFar == FoundBefore(found, children, i)
        invariant Scanned(index, digest, before, soFar)
        invariant disk == ScanAll(old(disk), digest, children[..i])
      {
        Scan(index, digest, children[i], before, soFar);
        FoundSteps(found, children, i);
        ScanAllSteps(old(disk), digest, children, i);
        soFar := soFar + Discovered(children[i]);
      }
      assert children[..|children|] == children;
    }

    // Drops the one entry that is not scheduled, and its files.
    method DropPopped(index: CacheIndex, digest: Digest, key: Key)
      requires index.Valid() && ExactVariants(index.entries, index.variants)
      requires key in index.entries && index.ticketByKey.Keys == index.entries.Keys - {key}
      requires AtOwnAccess(index.entries, index.ticketByKey)
      requires AllBacked(disk, digest, index.entries)
      modifies this, index
      ensures index.Consistent() && AllBacked(disk, digest, index.entries)
      ensures index.Now() == Snapshot(old(index.entries) - {key}, old(index.ticketByKey),
                                      SaturatingSub(old(index.currentSizeBytes), old(index.entries)[key].bodySizeBytes))
      ensures disk == Removed(old(disk), digest(key))
    {
      RemovingEvicted(disk, digest, index.entries, key);
      var removed := index.Drop(key);
      NothingToRemove(old(index.ticketByKey), key);
      if removed.Some? {
        RemoveCacheFiles(removed.value.hash);
      }
    }

    // Pops the first slot of the schedule and drops its entry and its files.
    method EvictOldest(index: CacheIndex, digest: Digest) returns (evicted: Option<Slot>)
      requires index.Consistent() && AllBacked(disk, digest, index.entries)
      modifies this, index
      ensures index.Consistent() && AllBacked(disk, digest, index.entries)
      ensures evicted.None? <==> old(index.entries) == map[]
      ensures evicted.None? ==> index.Now() == old(index.Now())
      ensures evicted.Some? ==>
                && evicted.value.key in old(index.entries)
                && Oldest(old(index.ticketByKey), evicted.value)
                && index.Now() == Dropped(old(index.Now()), evicted.value.key)
                && disk == Removed(old(disk), digest(evicted.value.key))
      ensures evicted.None? ==> disk == old(disk)
    {
      evicted := index.PopOldestScheduledEntry();
      if evicted.None? {
        assert index.entries.Keys == {};
        return;
      }
      DropPopped(index, digest, evicted.value.key);
    }

    /** Evicts in schedule order until the tracked size fits, and no further. */
    method EvictToLimit(index: CacheIndex, digest: Digest, limit: nat) returns (ghost evicted: seq<Slot>)
      requires index.Consistent() && AllBacked(disk, digest, index.entries)
      requires index.currentSizeBytes <= TotalSize(index.entries)
      modifies this, index
      ensures index.Consistent() && AllBacked(disk, digest, index.entries)
      ensures index.currentSizeBytes <= limit
      ensures Evicting(old(index.Now()), index.Now(), evicted, limit)
      ensures disk == RemovedAll(old(disk), digest, KeysInOrder(evicted))
    {
      evicted := [];
      ghost var start := index.Now();
      EvictionStarts(start, limit);
      while index.currentSizeBytes > limit
        invariant index.Consistent() && AllBacked(disk, digest, index.entries)
        invariant Evicting(start, index.Now(), evicted, limit)
        invariant disk == RemovedAll(old(disk), digest, KeysInOrder(evicted))
        decreases |index.entries.Keys|
      {
        ghost var now := index.Now();
        var slot := EvictOldest(index, digest);
        if slot.None? {
          break;
        }
        EvictionExtends(start, now, evicted, slot.value, limit);
        RemovedOneMore(old(disk), digest, evicted, slot.value);
        evicted := evicted + [slot.value];
      }
    }

    /** The whole load. After it the index agrees with the disk, and the files of everything
        discovered and not indexed are gone; without a limit nothing loadable is lost; with one,
        the tracked size fits and what was evicted was stored no later than what remains. */
    method LoadIndexFromDisk(digest: Digest, root: Option<DirEntry>, maxSizeBytes: Option<nat>)
      returns (index: CacheIndex, ghost loaded: Snapshot, ghost evicted: seq<Slot>)
      modifies this
      ensures index.Consistent() && AllOnDisk(disk, digest, index.entries)
      ensures LoadsUsable(loaded.entries, old(disk), digest, if root.Some? then Discovered(root.value) else {})
      ensures InStoreOrder(old(disk), disk, digest, index.entries, evicted)
      ensures root.Some? ==> Tidy(disk, digest, index.entries, root.value)
      ensures Enforced(loaded, index.Now(), evicted, maxSizeBytes)
      ensures TotalSize(loaded.entries) <= U64_MAX ==> loaded.size == TotalSize(loaded.entries)
      ensures fresh(index)
    {
      index := new CacheIndex();
      loaded, evicted := index.Now(), [];
      if root.None? {
        NothingEvicted(loaded, maxSizeBytes);
        return;
      }
      ghost var before := disk;
      Scan(index, digest, root.value, disk, {});
      assert {} + Discovered(root.value) == Discovered(root.value);
      loaded := index.Now();
      AllBackedAfterScan(old(disk), disk, digest, loaded.entries, Discovered(root.value));
      ghost var scanned := disk;
      evicted := EnforceLimit(index, digest, maxSizeBytes);
      LoadedFromFiles(before, disk, digest, root.value, loaded, index.Now(), evicted);
      TidyAfterLoad(before, scanned, disk, digest, root.value, loaded, index.Now(), evicted);
    }

    method EnforceLimit(index: CacheIndex, digest: Digest, maxSizeBytes: Option<nat>) returns (ghost evicted: seq<Slot>)
      requires index.Consistent() && AllBacked(disk, digest, index.entries)
      requires index.currentSizeBytes <= TotalSize(index.entries)
      modifies this, index
      ensures index.Consistent() && AllBacked(disk, digest, index.entries)
      ensures Enforced(old(index.Now()), index.Now(), evicted, maxSizeBytes)
      ensures disk == RemovedAll(old(disk), digest, KeysInOrder(evicted))
    {
      evicted := [];
      if maxSizeBytes.Some? && index.currentSizeBytes > maxSizeBytes.value {
        evicted := EvictToLimit(index, digest, maxSizeBytes.value);
        OrderIsByAccess(old(index.Now()), index.Now(), evicted);
      } else {
        NothingEvicted(index.Now(), maxSizeBytes);
      }
    }
  }

  lemma ReflectsUnusable(entries: map<Key, Entry>, disk: Disk, digest: Digest, found: set<Hash>, hash: Hash)
    requires Reflects(entries, disk, digest, found) && LoadEntry(disk, digest, hash).None?
    ensures Reflects(entries, disk, digest, found + {hash})
  {
  }

  lemma ReflectsLoaded(entries: map<Key, Entry>, disk: Disk, digest: Digest, found: set<Hash>, hash: Hash)
    requires Reflects(entries, disk, digest, found) && LoadEntry(disk, digest, hash).Some?
    ensures var (key, entry) := LoadEntry(disk, digest, hash).value;
            && Reflects(entries[key := entry], disk, digest, found + {hash})
            && (key in entries ==> entries[key] == entry)
  {
  }

  lemma UpsertKeepsSize(entries: map<Key, Entry>, size: nat, key: Key, entry: Entry)
    requires key in entries ==> entries[key] == entry
    requires size == SaturatingAdd(TotalSize(entries), 0)
    ensures SaturatingAdd(SaturatingSub(size, if key in entries then entries[key].bodySizeBytes else 0), entry.bodySizeBytes)
         == SaturatingAdd(TotalSize(entries[key := entry]), 0)
  {
    TotalSizeWith(entries, key, entry);
    if key in entries {
      TotalSizeWithout(entries, key);
    } else {
      assert entries - {key} == entries;
    }
  }

  ghost predicate AllBacked(disk: Disk, digest: Digest, entries: map<Key, Entry>) {
    forall k | k in entries :: Backed(disk, digest, k, entries[k])
  }

  lemma AllBackedAfterScan(before: Disk, after: Disk, digest: Digest, entries: map<Key, Entry>, found: set<Hash>)
    requires OnlyUnusableRemoved(before, after, digest) && Reflects(entries, before, digest, found)
    ensures AllBacked(after, digest, entries)
  {
  }

  ghost function KeysInOrder(slots: seq<Slot>): (keys: seq<Key>)
    ensures |keys| == |slots| && forall i | 0 <= i < |slots| :: keys[i] == slots[i].key
  {
    seq(|slots|, i requires 0 <= i < |slots| => slots[i].key)
  }

  lemma RemovedOneMore(disk: Disk, digest: Digest, evicted: seq<Slot>, slot: Slot)
    ensures RemovedAll(disk, digest, KeysInOrder(evicted + [slot]))
         == Removed(RemovedAll(disk, digest, KeysInOrder(evicted)), digest(slot.key))
  {
    var more := KeysInOrder(evicted + [slot]);
    assert more[..|more| - 1] == KeysInOrder(evicted);
  }

  // ----- What a load has to do with the files, in terms of the files -----

  ghost predicate AllOnDisk(disk: Disk, digest: Digest, entries: map<Key, Entry>) {
    forall k | k in entries :: OnDisk(disk, digest, k, entries[k])
  }

  // Exactly the usable ones among the discovered hashes.
  ghost predicate LoadsUsable(entries: map<Key, Entry>, disk: Disk, digest: Digest, found: set<Hash>) {
    && (forall k | k in entries :: digest(k) in found && OnDisk(disk, digest, k, entries[k]))
    && (forall h | h in found && Usable(disk, digest, h) :: disk.metadata[h].metadata.key in entries)
  }

  // What was evicted had been stored no later than what remains, by the times in the files.
  ghost predicate InStoreOrder(before: Disk, after: Disk, digest: Digest, entries: map<Key, Entry>, evicted: seq<Slot>) {
    forall i, k | 0 <= i < |evicted| && k in entries :: StoredNoLater(before, digest, evicted[i].key, after, k)
  }

  ghost predicate StoredNoLater(before: Disk, digest: Digest, evicted: Key, after: Disk, kept: Key) {
    && HasMetadata(before, digest(evicted)) && HasMetadata(after, digest(kept))
    && StoredAt(before, digest(evicted)) <= StoredAt(after, digest(kept))
  }

  // The files that remain of what was discovered belong to entries of the index.
  ghost predicate Tidy(disk: Disk, digest: Digest, entries: map<Key, Entry>, root: DirEntry) {
    && (forall h | h in Discovered(root) && !Gone(disk, h) :: exists k :: k in entries && digest(k) == h)
    && (forall h | h in BodyNames(root) && h in disk.bodies :: h in disk.metadata)
  }

  lemma BackedAreOnDisk(disk: Disk, digest: Digest, entries: map<Key, Entry>)
    requires AllBacked(disk, digest, entries)
    ensures AllOnDisk(disk, digest, entries)
  {
    forall k | k in entries ensures OnDisk(disk, digest, k, entries[k]) {
      BackedIffOnDisk(disk, digest, k, entries[k]);
    }
  }

  lemma ReflectsLoadsUsable(entries: map<Key, Entry>, disk: Disk, digest: Digest, found: set<Hash>)
    requires Reflects(entries, disk, digest, found)
    ensures LoadsUsable(entries, disk, digest, found)
  {
    BackedAreOnDisk(disk, digest, entries);
    forall h | h in found && Usable(disk, digest, h) ensures disk.metadata[h].metadata.key in entries {
      UsableIffLoaded(disk, digest, h);
    }
  }

  lemma AccessOrderIsStoreOrder(
      before: Disk, after: Disk, digest: Digest, loaded: Snapshot, now: Snapshot, evicted: seq<Slot>)
    requires AllOnDisk(before, digest, loaded.entries) && AllOnDisk(after, digest, now.entries)
    requires InAccessOrder(loaded, now, evicted)
    ensures InStoreOrder(before, after, digest, now.entries, evicted)
  {
    forall i, k | 0 <= i < |evicted| && k in now.entries
      ensures StoredNoLater(before, digest, evicted[i].key, after, k)
    {
      assert OnDisk(before, digest, evicted[i].key, loaded.entries[evicted[i].key]);
      assert OnDisk(after, digest, k, now.entries[k]);
    }
  }

  lemma LoadedFromFiles(
      before: Disk, after: Disk, digest: Digest, root: DirEntry, loaded: Snapshot, now: Snapshot, evicted: seq<Slot>)
    requires Reflects(loaded.entries, before, digest, Discovered(root)) && AllBacked(after, digest, now.entries)
    requires InAccessOrder(loaded, now, evicted)
    ensures LoadsUsable(loaded.entries, before, digest, Discovered(root)) && AllOnDisk(after, digest, now.entries)
    ensures InStoreOrder(before, after, digest, now.entries, evicted)
  {
    ReflectsLoadsUsable(loaded.entries, before, digest, Discovered(root));
    BackedAreOnDisk(after, digest, now.entries);
    AccessOrderIsStoreOrder(before, after, digest, loaded, now, evicted);
  }

  // A hash whose files survive the scan was loaded.
  lemma SurvivorWasLoaded(before: Disk, digest: Digest, root: DirEntry, entries: map<Key, Entry>, h: Hash)
    requires Reflects(entries, before, digest, Discovered(root)) && h in Discovered(root)
    requires Tidied(before, ScanDisk(before, digest, root), digest, Discovered(root), BodyNames(root))
    requires !Gone(ScanDisk(before, digest, root), h)
    ensures exists k :: k in entries && digest(k) == h
  {
    var k := LoadEntry(before, digest, h).value.0;
    assert k in entries && digest(k) == h;
  }

  lemma TidyAfterLoad(
      before: Disk, scanned: Disk, after: Disk, digest: Digest, root: DirEntry,
      loaded: Snapshot, now: Snapshot, evicted: seq<Slot>)
    requires Reflects(loaded.entries, before, digest, Discovered(root)) && EvictedInOrder(loaded, now, evicted)
    requires scanned == ScanDisk(before, digest, root) && after == RemovedAll(scanned, digest, KeysInOrder(evicted))
    ensures Tidy(after, digest, now.entries, root)
  {
    ScanTidies(before, digest, root);
    RemovedAllGone(scanned, digest, KeysInOrder(evicted));
    forall h | h in Discovered(root) && !Gone(after, h) ensures exists k :: k in now.entries && digest(k) == h {
      assert SameFiles(scanned, after, h) || Gone(after, h);
      SurvivorWasLoaded(before, digest, root, loaded.entries, h);
      var k :| k in loaded.entries && digest(k) == h;
      EvictedOrKept(digest, loaded, now, evicted, k, after);
    }
    forall h | h in BodyNames(root) && h in after.bodies ensures h in after.metadata {
      assert SameFiles(scanned, after, h) || Gone(after, h);
    }
  }

  lemma EvictedOrKept(digest: Digest, loaded: Snapshot, now: Snapshot, evicted: seq<Slot>, k: Key, after: Disk)
    requires EvictedInOrder(loaded, now, evicted) && k in loaded.entries
    requires forall i | 0 <= i < |evicted| :: Gone(after, digest(KeysInOrder(evicted)[i]))
    ensures k in now.entries || Gone(after, digest(k))
  {
    if k !in now.entries {
      assert k in KeysOf(evicted);
      var i :| 0 <= i < |evicted| && evicted[i].key == k;
      assert KeysInOrder(evicted)[i] == k;
    }
  }

  lemma NothingToRemove(tickets: map<Key, Ticket>, key: Key)
    requires key !in tickets
    ensures tickets - {key} == tickets
  {
  }

  // Deleting an evicted entry's files leaves every other entry's files in place.
  lemma RemovingEvicted(disk: Disk, digest: Digest, entries: map<Key, Entry>, key: Key)
    requires key in entries && AllBacked(disk, digest, entries)
    ensures AllBacked(Removed(disk, entries[key].hash), digest, entries - {key})
  {
    forall k | k in entries - {key} ensures Backed(Removed(disk, entries[key].hash), digest, k, entries[k]) {
      if entries[k].hash == entries[key].hash {
        SameHashSameKey(disk, digest, k, entries[k], key, entries[key]);
      }
    }
  }

  // ----- What an eviction run looks like -----

  ghost function KeysOf(slots: seq<Slot>): set<Key> {
    set i | 0 <= i < |slots| :: slots[i].key
  }

  function Dropped(s: Snapshot, key: Key): Snapshot
    requires key in s.entries
  {
    Snapshot(s.entries - {key}, s.tickets - {key}, SaturatingSub(s.size, s.entries[key].bodySizeBytes))
  }

  // The evicted slots are in schedule order and all precede every survivor's slot.
  ghost predicate EvictedInOrder(start: Snapshot, now: Snapshot, evicted: seq<Slot>) {
    && now.entries == start.entries - KeysOf(evicted) && now.tickets == start.tickets - KeysOf(evicted)
    && (forall i | 0 <= i < |evicted| :: evicted[i].key in start.tickets && evicted[i] == SlotOf(start.tickets, evicted[i].key))
    && (forall i, j | 0 <= i < j < |evicted| :: Before(evicted[i], evicted[j]))
    && (forall i, k | 0 <= i < |evicted| && k in now.tickets :: Before(evicted[i], SlotOf(now.tickets, k)))
  }

  // Before the last eviction the entries did not fit.
  ghost predicate LastWasNeeded(start: Snapshot, now: Snapshot, evicted: seq<Slot>, limit: nat) {
    evicted != [] ==>
      var last := evicted[|evicted| - 1].key;
      last in start.entries && TotalSize(now.entries) + start.entries[last].bodySizeBytes > limit
  }

  // What the tracked size comes to after these evictions.
  ghost function TrackedSize(start: Snapshot, evicted: seq<Slot>): nat {
    if evicted == [] then start.size
    else
      var key := evicted[|evicted| - 1].key;
      SaturatingSub(TrackedSize(start, evicted[..|evicted| - 1]),
                    if key in start.entries then start.entries[key].bodySizeBytes else 0)
  }

  // Before each eviction the tracked size was above the limit.
  ghost predicate EachWasNeeded(start: Snapshot, evicted: seq<Slot>, limit: nat) {
    forall i | 0 <= i < |evicted| :: TrackedSize(start, evicted[..i]) > limit
  }

  // The tracked size never exceeds the true one; if it starts exact it stays exact.
  ghost predicate Evicting(start: Snapshot, now: Snapshot, evicted: seq<Slot>, limit: nat) {
    && EvictedInOrder(start, now, evicted)
    && now.size == TrackedSize(start, evicted) <= TotalSize(now.entries)
    && EachWasNeeded(start, evicted, limit)
    && (start.size == TotalSize(start.entries) ==>
          now.size == TotalSize(now.entries) && LastWasNeeded(start, now, evicted, limit))
  }

  // Every evicted entry was last accessed no later than every survivor.
  ghost predicate InAccessOrder(start: Snapshot, now: Snapshot, evicted: seq<Slot>) {
    && (forall i | 0 <= i < |evicted| ::
          && evicted[i].key in start.entries
          && evicted[i].lastAccessMs == start.entries[evicted[i].key].lastAccessMs)
    && (forall i, k | 0 <= i < |evicted| && k in now.entries ::
          evicted[i].lastAccessMs <= now.entries[k].lastAccessMs)
    && (forall i, k | 0 <= i < |evicted| && k in now.tickets :: Preceded(evicted[i], now.tickets[k], k))
  }

  // At the same access time, scheduled earlier; at the same ticket, the lesser key.
  ghost predicate Preceded(slot: Slot, ticket: Ticket, key: Key) {
    && (slot.lastAccessMs == ticket.lastAccessMs ==> slot.ticket <= ticket.ticket)
    && (slot.lastAccessMs == ticket.lastAccessMs && slot.ticket == ticket.ticket ==> Strings.Less(slot.key, key))
  }

  lemma OrderIsByAccess(start: Snapshot, now: Snapshot, evicted: seq<Slot>)
    requires EvictedInOrder(start, now, evicted)
    requires AtOwnAccess(start.entries, start.tickets) && start.tickets.Keys == start.entries.Keys
    ensures InAccessOrder(start, now, evicted)
  {
    forall i, k | 0 <= i < |evicted| && k in now.entries
      ensures evicted[i].lastAccessMs <= now.entries[k].lastAccessMs
    {
      assert k in now.tickets && Before(evicted[i], SlotOf(now.tickets, k));
    }
    forall i, k | 0 <= i < |evicted| && k in now.tickets ensures Preceded(evicted[i], now.tickets[k], k) {
      assert Before(evicted[i], SlotOf(now.tickets, k));
    }
  }

  lemma EvictionStarts(start: Snapshot, limit: nat)
    requires start.size <= TotalSize(start.entries)
    ensures Evicting(start, start, [], limit)
  {
    assert start.entries - KeysOf([]) == start.entries && start.tickets - KeysOf([]) == start.tickets;
  }

  // What enforcing the size limit has done: order, size and need of the evictions.
  ghost predicate Enforced(start: Snapshot, now: Snapshot, evicted: seq<Slot>, maxSizeBytes: Option<nat>) {
    && EvictedInOrder(start, now, evicted) && InAccessOrder(start, now, evicted)
    && (maxSizeBytes.None? ==> evicted == [])
    && (maxSizeBytes.Some? ==>
          && now.size == TrackedSize(start, evicted) <= maxSizeBytes.value
          && EachWasNeeded(start, evicted, maxSizeBytes.value))
    && (start.size == TotalSize(start.entries) ==>
          && now.size == TotalSize(now.entries)
          && (maxSizeBytes.Some? ==> LastWasNeeded(start, now, evicted, maxSizeBytes.value)))
  }

  lemma NothingEvicted(s: Snapshot, maxSizeBytes: Option<nat>)
    requires s.size <= TotalSize(s.entries) && (maxSizeBytes.Some? ==> s.size <= maxSizeBytes.value)
    ensures Enforced(s, s, [], maxSizeBytes)
  {
    EvictionStarts(s, 0);
  }

  lemma NeedExtends(start: Snapshot, evicted: seq<Slot>, slot: Slot, limit: nat)
    requires EachWasNeeded(start, evicted, limit) && TrackedSize(start, evicted) > limit
    ensures EachWasNeeded(start, evicted + [slot], limit)
    ensures TrackedSize(start, evicted + [slot])
         == SaturatingSub(TrackedSize(start, evicted),
                          if slot.key in start.entries then start.entries[slot.key].bodySizeBytes else 0)
  {
    var more := evicted + [slot];
    assert more[..|evicted|] == evicted;
    forall i | 0 <= i < |more| ensures TrackedSize(start, more[..i]) > limit {
      assert more[..i] == evicted[..i];
    }
  }

  lemma EvictionKeepsOrder(start: Snapshot, now: Snapshot, evicted: seq<Slot>, slot: Slot)
    requires EvictedInOrder(start, now, evicted)
    requires slot.key in now.entries && Oldest(now.tickets, slot)
    ensures EvictedInOrder(start, Dropped(now, slot.key), evicted + [slot])
  {
    var more := evicted + [slot];
    assert KeysOf(more) == KeysOf(evicted) + {slot.key} by {
      assert more[|evicted|] == slot;
      assert forall i | 0 <= i < |evicted| :: more[i] == evicted[i];
    }
    assert start.entries - KeysOf(more) == now.entries - {slot.key};
    assert start.tickets - KeysOf(more) == now.tickets - {slot.key};
  }

  lemma EvictionExtends(start: Snapshot, now: Snapshot, evicted: seq<Slot>, slot: Slot, limit: nat)
    requires Evicting(start, now, evicted, limit) && now.size > limit
    requires slot.key in now.entries && Oldest(now.tickets, slot)
    ensures Evicting(start, Dropped(now, slot.key), evicted + [slot], limit)
    ensures |(now.entries - {slot.key}).Keys| < |now.entries.Keys|
  {
    assert now.entries.Keys == (now.entries - {slot.key}).Keys + {slot.key};
    EvictionKeepsOrder(start, now, evicted, slot);
    NeedExtends(start, evicted, slot, limit);
    TotalSizeWithout(now.entries, slot.key);
  }
}
