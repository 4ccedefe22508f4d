/**
 Catching up from a delta, in place: every operation goes through the cache index, so the
 replica's index stays consistent and its contents follow the log.
 */
module SharedReplica {
  import opened CacheTypes
  import opened SharedIndex
  import CacheIndexing

  class ReplicaIndex {
    const index: CacheIndexing.CacheIndex
    var admissionCounts: map<Key, nat>
    var invalidations: seq<Rule>

    constructor ()
      ensures fresh(index) && index.Consistent() && View() == Contents(map[], map[], [])
    {
      index := new CacheIndexing.CacheIndex();
      admissionCounts, invalidations := map[], [];
    }

    ghost function View(): Contents
      reads this, index
    {
      Contents(index.entries, admissionCounts, invalidations)
    }

    method Apply(op: Operation)
      requires index.Consistent()
      modifies this, index
      ensures index.Consistent()
      ensures View() == ApplyToReplica(old(View()), op)
    {
      match op
      case UpsertEntry(key, entry) => index.Upsert(key, entry);
      case RemoveEntry(key) => var _ := index.Drop(key);
      case TouchEntry(key, lastAccessMs) => index.Touch(key, lastAccessMs);
      case SetAdmissionCount(key, uses) => admissionCounts := admissionCounts[key := uses];
      case RemoveAdmissionCount(key) => admissionCounts := admissionCounts - {key};
      case AddInvalidation(rule) =>
        if rule !in invalidations {
          invalidations := invalidations + [rule];
        }
      case ClearInvalidations => invalidations := [];
    }

    method ApplyDelta(ops: seq<Operation>)
      requires index.Consistent()
      modifies this, index
      ensures index.Consistent()
      ensures View() == CatchUp(old(View()), ops)
    {
      for i := 0 to |ops|
        invariant index.Consistent()
        invariant View() == CatchUp(old(View()), ops[..i])
      {
        assert ops[..i + 1][..i] == ops[..i];
        Apply(ops[i]);
      }
      assert ops[..|ops|] == ops;
    }
  }
}
