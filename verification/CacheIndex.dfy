/**
 The cache index as it runs: six redundant structures updated in place by every
 operation, kept in agreement by each of them.
 */
module CacheIndexing {
  import opened CacheTypes
  import opened IndexLaws
  import opened Wrappers

  datatype Operation =
    | Insert(key: Key, entry: Entry)
    | Remove(key: Key)
    | Reschedule(key: Key, lastAccessMs: nat)
    | PopOldest

  // The parts of an index that the others are functions of, and its tracked size.
  datatype Snapshot = Snapshot(entries: map<Key, Entry>, tickets: map<Key, Ticket>, size: nat)

  class CacheIndex {
    var entries: map<Key, Entry>
    var hashRefCounts: map<Hash, nat>
    var variants: map<Key, seq<Key>>
    var currentSizeBytes: nat
    var nextTicket: nat
    var accessSchedule: set<Slot>
    var ticketByKey: map<Key, Ticket>

    /** What every sequence of operations keeps. A popped key is present but unscheduled
        until it is rescheduled or removed, so scheduled keys are only a subset. */
    ghost predicate Valid()
      reads this
    {
      && ExactCounts(entries, hashRefCounts)
      && ExactSchedule(ticketByKey, accessSchedule)
      && ticketByKey.Keys <= entries.Keys
      && nextTicket <= U64_MAX
      && forall k | k in ticketByKey :: ticketByKey[k].ticket < nextTicket || nextTicket == U64_MAX
    }

    // Between operations of the loader and the replica every entry is scheduled, at its own last
    // access, and grouped.
    ghost predicate Consistent()
      reads this
    {
      && Valid() && ticketByKey.Keys == entries.Keys && ExactVariants(entries, variants)
      && AtOwnAccess(entries, ticketByKey)
    }

    ghost function Now(): Snapshot
      reads this
    {
      Snapshot(entries, ticketByKey, currentSizeBytes)
    }

    constructor ()
      ensures Consistent() && entries == map[] && currentSizeBytes == 0
    {
      entries, hashRefCounts, variants := map[], map[], map[];
      currentSizeBytes, nextTicket, accessSchedule, ticketByKey := 0, 0, {}, map[];
    }

    method InsertEntry(key: Key, entry: Entry) returns (existing: Option<Entry>)
      requires Valid()
      modifies this`entries, this`hashRefCounts, this`nextTicket, this`accessSchedule, this`ticketByKey
      ensures Valid()
      ensures existing == if key in old(entries) then Some(old(entries)[key]) else None
      ensures entries == old(entries)[key := entry]
      ensures ticketByKey == old(ticketByKey)[key := Ticket(entry.lastAccessMs, old(nextTicket))]
    {
      RecountIsExact(entries, hashRefCounts, key, entry);
      existing := if key in entries then Some(entries[key]) else None;
      entries := entries[key := entry];
      if existing.Some? {
        DecrementHashRef(existing.value.hash);
      }
      IncrementHashRef(entry.hash);
      ScheduleEntryAccess(key, entry.lastAccessMs);
    }

    method RemoveEntry(key: Key) returns (removed: Option<Entry>)
      requires Valid()
      modifies this`entries, this`hashRefCounts, this`accessSchedule, this`ticketByKey
      ensures Valid()
      ensures removed == if key in old(entries) then Some(old(entries)[key]) else None
      ensures entries == old(entries) - {key} && ticketByKey == old(ticketByKey) - {key}
    {
      if key !in entries {
        assert entries - {key} == entries && ticketByKey - {key} == ticketByKey;
        return None;
      }
      removed := Some(entries[key]);
      DecrementIsExact(entries, hashRefCounts, key);
      entries := entries - {key};
      DecrementHashRef(removed.value.hash);
      UnscheduleEntryAccess(key);
    }

    method HashIsReferenced(hash: Hash) returns (referenced: bool)
      requires Valid()
      ensures referenced <==> exists k :: k in entries && entries[k].hash == hash
    {
      referenced := (if hash in hashRefCounts then hashRefCounts[hash] else 0) > 0;
      if referenced {
        assert KeysWithHash(entries, hash) != {};
        ghost var k :| k in KeysWithHash(entries, hash);
      } else {
        assert KeysWithHash(entries, hash) == {};
        assert forall k | k in entries && entries[k].hash == hash :: k in KeysWithHash(entries, hash);
      }
    }

    method RescheduleEntryAccess(key: Key, lastAccessMs: nat)
      requires Valid()
      modifies this`nextTicket, this`accessSchedule, this`ticketByKey
      ensures Valid()
      ensures ticketByKey == if key in entries then old(ticketByKey)[key := Ticket(lastAccessMs, old(nextTicket))]
                             else old(ticketByKey)
    {
      if key in entries {
        ScheduleEntryAccess(key, lastAccessMs);
      }
    }

    method OldestScheduledAccess() returns (oldest: Option<nat>)
      requires Valid()
      ensures oldest.None? <==> ticketByKey == map[]
      ensures oldest.Some? ==> exists k :: k in ticketByKey && ticketByKey[k].lastAccessMs == oldest.value
      ensures oldest.Some? ==> forall k | k in ticketByKey :: oldest.value <= ticketByKey[k].lastAccessMs
    {
      if accessSchedule == {} {
        assert ticketByKey == map[];
        return None;
      }
      FirstExists(accessSchedule);
      var first :| IsFirst(accessSchedule, first);
      oldest := Some(first.lastAccessMs);
      forall k | k in ticketByKey ensures first.lastAccessMs <= ticketByKey[k].lastAccessMs {
        assert SlotOf(ticketByKey, k) in accessSchedule;
      }
    }

    /** Takes the first slot out of the schedule. The entry itself stays: until the caller
        removes or reschedules it, it is the one present key without a ticket. */
    method PopOldestScheduledEntry() returns (popped: Option<Slot>)
      requires Valid()
      modifies this`accessSchedule, this`ticketByKey
      ensures Valid()
      ensures popped.None? <==> old(ticketByKey) == map[]
      ensures popped.None? ==> ticketByKey == old(ticketByKey)
      ensures popped.Some? ==>
                && Oldest(old(ticketByKey), popped.value)
                && ticketByKey == old(ticketByKey) - {popped.value.key}
    {
      if accessSchedule == {} {
        assert ticketByKey == map[];
        return None;
      }
      FirstExists(accessSchedule);
      var first :| IsFirst(accessSchedule, first);
      accessSchedule := accessSchedule - {first};
      ticketByKey := ticketByKey - {first.key};
      popped := Some(first);
    }

    method IncrementHashRef(hash: Hash)
      modifies this`hashRefCounts
      ensures hashRefCounts == Incremented(old(hashRefCounts), hash)
    {
      hashRefCounts := hashRefCounts[hash := (if hash in hashRefCounts then hashRefCounts[hash] else 0) + 1];
    }

    method DecrementHashRef(hash: Hash)
      modifies this`hashRefCounts
      ensures hashRefCounts == Decremented(old(hashRefCounts), hash)
    {
      if hash !in hashRefCounts {
        return;
      }
      var count := SaturatingSub(hashRefCounts[hash], 1);
      if count == 0 {
        hashRefCounts := hashRefCounts - {hash};
      } else {
        hashRefCounts := hashRefCounts[hash := count];
      }
    }

    method ScheduleEntryAccess(key: Key, lastAccessMs: nat)
      requires ExactSchedule(ticketByKey, accessSchedule) && nextTicket <= U64_MAX
      modifies this`nextTicket, this`accessSchedule, this`ticketByKey
      ensures ExactSchedule(ticketByKey, accessSchedule)
      ensures ticketByKey == old(ticketByKey)[key := Ticket(lastAccessMs, old(nextTicket))]
      ensures nextTicket == SaturatingAdd(old(nextTicket), 1)
    {
      UnscheduleEntryAccess(key);
      var ticket := nextTicket;
      nextTicket := SaturatingAdd(nextTicket, 1);
      accessSchedule := accessSchedule + {Slot(lastAccessMs, ticket, key)};
      ticketByKey := ticketByKey[key := Ticket(lastAccessMs, ticket)];
    }

    method UnscheduleEntryAccess(key: Key)
      requires ExactSchedule(ticketByKey, accessSchedule)
      modifies this`accessSchedule, this`ticketByKey
      ensures ExactSchedule(ticketByKey, accessSchedule)
      ensures ticketByKey == old(ticketByKey) - {key}
    {
      if key !in ticketByKey {
        assert ticketByKey - {key} == ticketByKey;
        return;
      }
      var ticket := ticketByKey[key];
      ticketByKey := ticketByKey - {key};
      accessSchedule := accessSchedule - {Slot(ticket.lastAccessMs, ticket.ticket, key)};
    }

    // Any sequence of operations, in any order, keeps the index valid.
    method Run(operations: seq<Operation>)
      requires Valid()
      modifies this
      ensures Valid()
    {
      for i := 0 to |operations|
        invariant Valid()
      {
        match operations[i]
        case Insert(key, entry) => var _ := InsertEntry(key, entry);
        case Remove(key) => var _ := RemoveEntry(key);
        case Reschedule(key, lastAccessMs) => RescheduleEntryAccess(key, lastAccessMs);
        case PopOldest => var _ := PopOldestScheduledEntry();
      }
    }

    // ----- The two composite updates that the loader and the replica perform -----

    method Upsert(key: Key, entry: Entry)
      requires Consistent()
      modifies this
      ensures Consistent()
      ensures entries == old(entries)[key := entry]
      ensures ticketByKey == old(ticketByKey)[key := Ticket(entry.lastAccessMs, old(nextTicket))]
      ensures currentSizeBytes
           == SaturatingAdd(
                SaturatingSub(old(currentSizeBytes), if key in old(entries) then old(entries)[key].bodySizeBytes else 0),
                entry.bodySizeBytes)
    {
      RegroupIsExact(entries, variants, key, entry);
      MovedTogether(entries, ticketByKey, key, entry, Ticket(entry.lastAccessMs, nextTicket));
      var existing := InsertEntry(key, entry);
      if existing.Some? {
        currentSizeBytes := SaturatingSub(currentSizeBytes, existing.value.bodySizeBytes);
        variants := WithoutVariant(variants, existing.value.baseKey, key);
      }
      currentSizeBytes := SaturatingAdd(currentSizeBytes, entry.bodySizeBytes);
      variants := WithVariant(variants, entry.baseKey, key);
    }

    method SetLastAccess(key: Key, lastAccessMs: nat)
      requires Consistent() && key in entries
      modifies this`entries
      ensures Valid() && ExactVariants(entries, variants)
      ensures entries == old(entries)[key := old(entries)[key].(lastAccessMs := lastAccessMs)]
    {
      var touched := entries[key].(lastAccessMs := lastAccessMs);
      TouchKeepsCounts(entries, hashRefCounts, key, touched);
      TouchKeepsVariants(entries, variants, key, touched);
      entries := entries[key := touched];
    }

    method MoveAccess(key: Key, lastAccessMs: nat)
      requires Consistent() && key in entries
      modifies this`entries, this`nextTicket, this`accessSchedule, this`ticketByKey
      ensures Consistent()
      ensures entries == old(entries)[key := old(entries)[key].(lastAccessMs := lastAccessMs)]
      ensures ticketByKey == old(ticketByKey)[key := Ticket(lastAccessMs, old(nextTicket))]
    {
      MovedTogether(entries, ticketByKey, key, entries[key].(lastAccessMs := lastAccessMs), Ticket(lastAccessMs, nextTicket));
      SetLastAccess(key, lastAccessMs);
      RescheduleEntryAccess(key, lastAccessMs);
    }

    // A later access moves the entry's time and its place in the schedule, and nothing else.
    method Touch(key: Key, lastAccessMs: nat)
      requires Consistent()
      modifies this
      ensures Consistent() && currentSizeBytes == old(currentSizeBytes)
      ensures if key in old(entries) && old(entries)[key].lastAccessMs < lastAccessMs
              then && entries == old(entries)[key := old(entries)[key].(lastAccessMs := lastAccessMs)]
                   && ticketByKey == old(ticketByKey)[key := Ticket(lastAccessMs, old(nextTicket))]
              else entries == old(entries) && ticketByKey == old(ticketByKey)
    {
      if key in entries && entries[key].lastAccessMs < lastAccessMs {
        MoveAccess(key, lastAccessMs);
      }
    }

    method Drop(key: Key) returns (removed: Option<Entry>)
      requires Valid() && ExactVariants(entries, variants)
      modifies this
      ensures Valid() && ExactVariants(entries, variants)
      ensures removed == if key in old(entries) then Some(old(entries)[key]) else None
      ensures entries == old(entries) - {key} && ticketByKey == old(ticketByKey) - {key}
      ensures currentSizeBytes
           == SaturatingSub(old(currentSizeBytes), if key in old(entries) then old(entries)[key].bodySizeBytes else 0)
    {
      removed := RemoveEntry(key);
      if removed.Some? {
        currentSizeBytes := SaturatingSub(currentSizeBytes, removed.value.bodySizeBytes);
        RemoveVariantIsExact(old(entries), variants, key);
        variants := WithoutVariant(variants, removed.value.baseKey, key);
      } else {
        assert entries == old(entries);
      }
    }
  }
}
