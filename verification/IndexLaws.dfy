/**
 The redundant parts of the cache index as functions of its entries: reference counts
 per body hash, variant lists per base key, and the ordered access schedule.
 Each update the index performs is shown to keep the corresponding part exact.
 */
module IndexLaws {
  import opened CacheTypes
  import Strings

  // ----- Hash reference counts -----

  ghost function KeysWithHash(entries: map<Key, Entry>, hash: Hash): set<Key> {
    set k | k in entries && entries[k].hash == hash
  }

  // The count stored for a hash is the exact number of entries with it, and zero is never stored.
  ghost predicate ExactCount(keys: set<Key>, counts: map<Hash, nat>, hash: Hash) {
    if keys == {} then hash !in counts else hash in counts && counts[hash] == |keys|
  }

  ghost predicate ExactCounts(entries: map<Key, Entry>, counts: map<Hash, nat>) {
    forall h :: ExactCount(KeysWithHash(entries, h), counts, h)
  }

  function Incremented(counts: map<Hash, nat>, hash: Hash): map<Hash, nat> {
    counts[hash := (if hash in counts then counts[hash] else 0) + 1]
  }

  function Decremented(counts: map<Hash, nat>, hash: Hash): map<Hash, nat> {
    if hash !in counts then counts
    else if SaturatingSub(counts[hash], 1) == 0 then counts - {hash}
    else counts[hash := SaturatingSub(counts[hash], 1)]
  }

  lemma OneMore(keys: set<Key>, key: Key, counts: map<Hash, nat>, hash: Hash)
    requires ExactCount(keys, counts, hash) && key !in keys
    ensures ExactCount(keys + {key}, Incremented(counts, hash), hash)
  {
    assert |keys + {key}| == |keys| + 1;
  }

  lemma OneLess(keys: set<Key>, key: Key, counts: map<Hash, nat>, hash: Hash)
    requires ExactCount(keys, counts, hash) && key in keys
    ensures ExactCount(keys - {key}, Decremented(counts, hash), hash)
  {
    assert |keys| == |keys - {key}| + 1;
  }

  lemma DecrementIsExact(entries: map<Key, Entry>, counts: map<Hash, nat>, key: Key)
    requires ExactCounts(entries, counts) && key in entries
    ensures ExactCounts(entries - {key}, Decremented(counts, entries[key].hash))
  {
    var rest, counts' := entries - {key}, Decremented(counts, entries[key].hash);
    forall h ensures ExactCount(KeysWithHash(rest, h), counts', h) {
      var before := KeysWithHash(entries, h);
      assert ExactCount(before, counts, h);
      if entries[key].hash == h {
        assert key in before && KeysWithHash(rest, h) == before - {key};
        OneLess(before, key, counts, h);
      } else {
        assert KeysWithHash(rest, h) == before;
      }
    }
  }

  lemma IncrementIsExact(entries: map<Key, Entry>, counts: map<Hash, nat>, key: Key, entry: Entry)
    requires ExactCounts(entries, counts) && key !in entries
    ensures ExactCounts(entries[key := entry], Incremented(counts, entry.hash))
  {
    var more, counts' := entries[key := entry], Incremented(counts, entry.hash);
    forall h ensures ExactCount(KeysWithHash(more, h), counts', h) {
      var before := KeysWithHash(entries, h);
      assert ExactCount(before, counts, h);
      if entry.hash == h {
        assert key !in before && KeysWithHash(more, h) == before + {key};
        OneMore(before, key, counts, h);
      } else {
        assert KeysWithHash(more, h) == before;
      }
    }
  }

  // Replacing or adding an entry: release the old hash, then take the new one.
  function Recounted(entries: map<Key, Entry>, counts: map<Hash, nat>, key: Key, hash: Hash): map<Hash, nat> {
    Incremented(if key in entries then Decremented(counts, entries[key].hash) else counts, hash)
  }

  lemma RecountIsExact(entries: map<Key, Entry>, counts: map<Hash, nat>, key: Key, entry: Entry)
    requires ExactCounts(entries, counts)
    ensures ExactCounts(entries[key := entry], Recounted(entries, counts, key, entry.hash))
  {
    if key in entries {
      DecrementIsExact(entries, counts, key);
      IncrementIsExact(entries - {key}, Decremented(counts, entries[key].hash), key, entry);
      assert (entries - {key})[key := entry] == entries[key := entry];
    } else {
      IncrementIsExact(entries, counts, key, entry);
    }
  }

  lemma TouchKeepsCounts(entries: map<Key, Entry>, counts: map<Hash, nat>, key: Key, touched: Entry)
    requires ExactCounts(entries, counts) && key in entries && touched.hash == entries[key].hash
    ensures ExactCounts(entries[key := touched], counts)
  {
    var entries' := entries[key := touched];
    forall h ensures ExactCount(KeysWithHash(entries', h), counts, h) {
      assert KeysWithHash(entries', h) == KeysWithHash(entries, h);
    }
  }

  // ----- Variant lists -----

  ghost predicate Distinct(keys: seq<Key>) {
    forall i, j | 0 <= i < j < |keys| :: keys[i] != keys[j]
  }

  // The lists group the entries by base key: no repeats, no strangers, no empty list.
  ghost predicate ExactVariants(entries: map<Key, Entry>, variants: map<Key, seq<Key>>) {
    && (forall b | b in variants ::
          && variants[b] != [] && Distinct(variants[b])
          && forall k | k in variants[b] :: k in entries && entries[k].baseKey == b)
    && (forall k | k in entries :: entries[k].baseKey in variants && k in variants[entries[k].baseKey])
  }

  function Without(keys: seq<Key>, key: Key): (r: seq<Key>)
    ensures forall k :: k in r <==> k in keys && k != key
  {
    if keys == [] then []
    else if keys[0] == key then Without(keys[1..], key)
    else [keys[0]] + Without(keys[1..], key)
  }

  lemma {:induction false} WithoutStaysDistinct(keys: seq<Key>, key: Key)
    requires Distinct(keys)
    ensures Distinct(Without(keys, key))
  {
    if keys != [] {
      WithoutStaysDistinct(keys[1..], key);
      assert keys[0] !in keys[1..];
    }
  }

  function WithVariant(variants: map<Key, seq<Key>>, baseKey: Key, key: Key): map<Key, seq<Key>> {
    var keys := if baseKey in variants then variants[baseKey] else [];
    variants[baseKey := if key in keys then keys else keys + [key]]
  }

  function WithoutVariant(variants: map<Key, seq<Key>>, baseKey: Key, key: Key): map<Key, seq<Key>> {
    if baseKey !in variants then variants
    else
      var keys := Without(variants[baseKey], key);
      if keys == [] then variants - {baseKey} else variants[baseKey := keys]
  }

  lemma RemoveVariantIsExact(entries: map<Key, Entry>, variants: map<Key, seq<Key>>, key: Key)
    requires ExactVariants(entries, variants) && key in entries
    ensures ExactVariants(entries - {key}, WithoutVariant(variants, entries[key].baseKey, key))
  {
    WithoutStaysDistinct(variants[entries[key].baseKey], key);
  }

  lemma AddVariantIsExact(entries: map<Key, Entry>, variants: map<Key, seq<Key>>, key: Key, entry: Entry)
    requires ExactVariants(entries, variants) && key !in entries
    ensures ExactVariants(entries[key := entry], WithVariant(variants, entry.baseKey, key))
  {
  }

  function Regrouped(entries: map<Key, Entry>, variants: map<Key, seq<Key>>, key: Key, baseKey: Key): map<Key, seq<Key>> {
    WithVariant(if key in entries then WithoutVariant(variants, entries[key].baseKey, key) else variants, baseKey, key)
  }

  lemma RegroupIsExact(entries: map<Key, Entry>, variants: map<Key, seq<Key>>, key: Key, entry: Entry)
    requires ExactVariants(entries, variants)
    ensures ExactVariants(entries[key := entry], Regrouped(entries, variants, key, entry.baseKey))
  {
    if key in entries {
      RemoveVariantIsExact(entries, variants, key);
      AddVariantIsExact(entries - {key}, WithoutVariant(variants, entries[key].baseKey, key), key, entry);
      assert (entries - {key})[key := entry] == entries[key := entry];
    } else {
      AddVariantIsExact(entries, variants, key, entry);
    }
  }

  lemma TouchKeepsVariants(entries: map<Key, Entry>, variants: map<Key, seq<Key>>, key: Key, touched: Entry)
    requires ExactVariants(entries, variants) && key in entries && touched.baseKey == entries[key].baseKey
    ensures ExactVariants(entries[key := touched], variants)
  {
  }

  // ----- The access schedule -----

  datatype Slot = Slot(lastAccessMs: nat, ticket: nat, key: Key)

  datatype Ticket = Ticket(lastAccessMs: nat, ticket: nat)

  // The derived order of schedule entries: last access, then ticket, then key.
  predicate Before(a: Slot, b: Slot) {
    || a.lastAccessMs < b.lastAccessMs
    || (a.lastAccessMs == b.lastAccessMs && a.ticket < b.ticket)
    || (a.lastAccessMs == b.lastAccessMs && a.ticket == b.ticket && Strings.Less(a.key, b.key))
  }

  lemma BeforeTotal(a: Slot, b: Slot)
    ensures Before(a, b) || a == b || Before(b, a)
    ensures !(Before(a, b) && Before(b, a))
  {
    Strings.LessTotal(a.key, b.key);
  }

  lemma BeforeTransitive(a: Slot, b: Slot, c: Slot)
    requires Before(a, b) && Before(b, c)
    ensures Before(a, c)
  {
    if Strings.Less(a.key, b.key) && Strings.Less(b.key, c.key) {
      Strings.LessTransitive(a.key, b.key, c.key);
    }
  }

  predicate IsFirst(schedule: set<Slot>, slot: Slot) {
    slot in schedule && forall other | other in schedule && other != slot :: Before(slot, other)
  }

  lemma {:induction false} FirstExists(schedule: set<Slot>)
    requires schedule != {}
    ensures exists slot :: IsFirst(schedule, slot)
    decreases schedule
  {
    var any :| any in schedule;
    var rest := schedule - {any};
    if rest == {} {
      assert schedule == {any};
      assert IsFirst(schedule, any);
    } else {
      FirstExists(rest);
      var first :| IsFirst(rest, first);
      BeforeTotal(any, first);
      if Before(any, first) {
        forall other | other in schedule && other != any ensures Before(any, other) {
          if other != first { BeforeTransitive(any, first, other); }
        }
        assert IsFirst(schedule, any);
      } else {
        assert IsFirst(schedule, first);
      }
    }
  }

  ghost function SlotOf(tickets: map<Key, Ticket>, key: Key): Slot
    requires key in tickets
  {
    Slot(tickets[key].lastAccessMs, tickets[key].ticket, key)
  }

  // Every scheduled entry stands at its own last access.
  ghost predicate AtOwnAccess(entries: map<Key, Entry>, tickets: map<Key, Ticket>) {
    forall k | k in tickets && k in entries :: tickets[k].lastAccessMs == entries[k].lastAccessMs
  }

  lemma MovedTogether(entries: map<Key, Entry>, tickets: map<Key, Ticket>, key: Key, entry: Entry, ticket: Ticket)
    requires AtOwnAccess(entries, tickets) && ticket.lastAccessMs == entry.lastAccessMs
    ensures AtOwnAccess(entries[key := entry], tickets[key := ticket])
    ensures tickets.Keys == entries.Keys ==> tickets[key := ticket].Keys == entries[key := entry].Keys
  {
  }

  // The ordered schedule and the ticket map say the same thing.
  ghost predicate ExactSchedule(tickets: map<Key, Ticket>, schedule: set<Slot>) {
    && (forall k | k in tickets :: SlotOf(tickets, k) in schedule)
    && (forall s | s in schedule :: s.key in tickets && SlotOf(tickets, s.key) == s)
  }

  // The slot that the schedule yields first.
  ghost predicate Oldest(tickets: map<Key, Ticket>, slot: Slot) {
    && slot.key in tickets && slot == SlotOf(tickets, slot.key)
    && forall k | k in tickets && k != slot.key :: Before(slot, SlotOf(tickets, k))
  }
}
