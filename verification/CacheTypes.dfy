/**
 The values that the cache index, its loader, its invalidation rules and its shared
 replica all speak about. Entry fields that none of them reads are not modelled.
 */
module CacheTypes {

  const U64_MAX: nat := 0xFFFF_FFFF_FFFF_FFFF

  type Key = string
  type Hash = string

  datatype EntryKind = Response | HitForPass

  datatype Entry = Entry(
    kind: EntryKind,
    hash: Hash,
    baseKey: Key,
    storedAtMs: nat,
    tags: seq<string>,
    bodySizeBytes: nat,
    expiresAtMs: nat,
    requiresRevalidation: bool,
    lastAccessMs: nat)

  function SaturatingAdd(a: nat, b: nat): nat {
    if a + b <= U64_MAX then a + b else U64_MAX
  }

  function SaturatingSub(a: nat, b: nat): nat {
    if a >= b then a - b else 0
  }

  // ----- Total body size of a set of entries -----

  ghost function TotalSize(entries: map<Key, Entry>): nat {
    if entries == map[] then 0
    else
      var key :| key in entries;
      entries[key].bodySizeBytes + TotalSize(entries - {key})
  }

  lemma {:induction false} TotalSizeWithout(entries: map<Key, Entry>, key: Key)
    requires key in entries
    ensures TotalSize(entries) == entries[key].bodySizeBytes + TotalSize(entries - {key})
    decreases entries.Keys
  {
    var first :| first in entries && TotalSize(entries) == entries[first].bodySizeBytes + TotalSize(entries - {first});
    if first != key {
      TotalSizeWithout(entries - {first}, key);
      TotalSizeWithout(entries - {key}, first);
      assert entries - {first} - {key} == entries - {key} - {first};
    }
  }

  lemma TotalSizeWith(entries: map<Key, Entry>, key: Key, entry: Entry)
    ensures TotalSize(entries[key := entry]) == TotalSize(entries - {key}) + entry.bodySizeBytes
  {
    assert entries[key := entry] - {key} == entries - {key};
    TotalSizeWithout(entries[key := entry], key);
  }
}
