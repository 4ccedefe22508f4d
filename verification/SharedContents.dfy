/**
 What the shared contents hold after a list of operations, key by key: the last write decides, a
 touch only ever moves the access time forward, and clearing forgets the rules before it.
 */
module SharedContents {
  import opened CacheTypes
  import opened SharedIndex

  predicate WritesEntry(op: Operation, key: Key) {
    (op.UpsertEntry? || op.RemoveEntry?) && op.key == key
  }

  predicate WritesCount(op: Operation, key: Key) {
    (op.SetAdmissionCount? || op.RemoveAdmissionCount?) && op.key == key
  }

  ghost predicate NoEntryWrite(ops: seq<Operation>, key: Key) {
    forall i | 0 <= i < |ops| :: !WritesEntry(ops[i], key)
  }

  ghost predicate NoCountWrite(ops: seq<Operation>, key: Key) {
    forall i | 0 <= i < |ops| :: !WritesCount(ops[i], key)
  }

  // The latest of a time and the touches of a key.
  function LatestTouch(ops: seq<Operation>, key: Key, from: nat): nat {
    if ops == [] then from
    else
      var earlier, last := LatestTouch(ops[..|ops| - 1], key, from), ops[|ops| - 1];
      if last.TouchEntry? && last.key == key && last.lastAccessMs > earlier then last.lastAccessMs else earlier
  }

  lemma {:induction false} LatestTouchIsMaximum(ops: seq<Operation>, key: Key, from: nat)
    ensures LatestTouch(ops, key, from) >= from
    ensures forall i | 0 <= i < |ops| && ops[i].TouchEntry? && ops[i].key == key ::
              ops[i].lastAccessMs <= LatestTouch(ops, key, from)
    ensures LatestTouch(ops, key, from) == from
         || exists i | 0 <= i < |ops| && ops[i].TouchEntry? && ops[i].key == key ::
              ops[i].lastAccessMs == LatestTouch(ops, key, from)
  {
    if ops != [] {
      var before := ops[..|ops| - 1];
      LatestTouchIsMaximum(before, key, from);
      assert forall i | 0 <= i < |before| :: ops[i] == before[i];
    }
  }

  // ----- Entries -----

  // Without a write the entry stays, but for later touches; a touch creates nothing.
  lemma {:induction false} EntryWithoutWrite(c: Contents, ops: seq<Operation>, key: Key)
    requires NoEntryWrite(ops, key)
    ensures key in Replay(c, ops).entries <==> key in c.entries
    ensures key in c.entries ==>
              Replay(c, ops).entries[key]
              == c.entries[key].(lastAccessMs := LatestTouch(ops, key, c.entries[key].lastAccessMs))
  {
    if ops != [] {
      var before, last := ops[..|ops| - 1], ops[|ops| - 1];
      assert forall i | 0 <= i < |before| :: before[i] == ops[i];
      EntryWithoutWrite(c, before, key);
      assert !WritesEntry(last, key);
      assert Replay(c, ops) == ApplyToDocument(Replay(c, before), last);
    }
  }

  lemma AfterLast(c: Contents, before: seq<Operation>, op: Operation, after: seq<Operation>)
    ensures Replay(c, before + [op] + after) == Replay(ApplyToDocument(Replay(c, before), op), after)
  {
    ReplayComposes(c, before + [op], after);
    assert (before + [op])[..|before|] == before;
  }

  // The last upsert decides, with the latest touch after it.
  lemma EntryAfterUpsert(c: Contents, before: seq<Operation>, key: Key, entry: Entry, after: seq<Operation>)
    requires NoEntryWrite(after, key)
    ensures var r := Replay(c, before + [UpsertEntry(key, entry)] + after);
            && key in r.entries
            && r.entries[key] == entry.(lastAccessMs := LatestTouch(after, key, entry.lastAccessMs))
  {
    AfterLast(c, before, UpsertEntry(key, entry), after);
    EntryWithoutWrite(ApplyToDocument(Replay(c, before), UpsertEntry(key, entry)), after, key);
  }

  lemma EntryAfterRemoval(c: Contents, before: seq<Operation>, key: Key, after: seq<Operation>)
    requires NoEntryWrite(after, key)
    ensures key !in Replay(c, before + [RemoveEntry(key)] + after).entries
  {
    AfterLast(c, before, RemoveEntry(key), after);
    EntryWithoutWrite(ApplyToDocument(Replay(c, before), RemoveEntry(key)), after, key);
  }

  // ----- Admission counts -----

  lemma {:induction false} CountWithoutWrite(c: Contents, ops: seq<Operation>, key: Key)
    requires NoCountWrite(ops, key)
    ensures key in Replay(c, ops).admissions <==> key in c.admissions
    ensures key in c.admissions ==> Replay(c, ops).admissions[key] == c.admissions[key]
  {
    if ops != [] {
      var before, last := ops[..|ops| - 1], ops[|ops| - 1];
      assert forall i | 0 <= i < |before| :: before[i] == ops[i];
      CountWithoutWrite(c, before, key);
      assert !WritesCount(last, key);
      assert Replay(c, ops) == ApplyToDocument(Replay(c, before), last);
    }
  }

  lemma CountAfterWrite(c: Contents, before: seq<Operation>, key: Key, uses: nat, after: seq<Operation>)
    requires NoCountWrite(after, key)
    ensures var r := Replay(c, before + [SetAdmissionCount(key, uses)] + after);
            key in r.admissions && r.admissions[key] == uses
    ensures key !in Replay(c, before + [RemoveAdmissionCount(key)] + after).admissions
  {
    AfterLast(c, before, SetAdmissionCount(key, uses), after);
    CountWithoutWrite(ApplyToDocument(Replay(c, before), SetAdmissionCount(key, uses)), after, key);
    AfterLast(c, before, RemoveAdmissionCount(key), after);
    CountWithoutWrite(ApplyToDocument(Replay(c, before), RemoveAdmissionCount(key)), after, key);
  }

  // ----- Rules -----

  ghost predicate NoClear(ops: seq<Operation>) {
    forall i | 0 <= i < |ops| :: !ops[i].ClearInvalidations?
  }

  lemma {:induction false} RulesWithoutClear(c: Contents, ops: seq<Operation>, rule: Rule)
    requires NoClear(ops)
    ensures rule in Replay(c, ops).rules <==> rule in c.rules || AddInvalidation(rule) in ops
  {
    if ops != [] {
      var before, last := ops[..|ops| - 1], ops[|ops| - 1];
      assert forall i | 0 <= i < |before| :: before[i] == ops[i];
      RulesWithoutClear(c, before, rule);
      assert ops == before + [last] && !last.ClearInvalidations?;
    }
  }

  lemma RulesAfterClear(c: Contents, before: seq<Operation>, after: seq<Operation>, rule: Rule)
    requires NoClear(after)
    ensures rule in Replay(c, before + [ClearInvalidations] + after).rules <==> AddInvalidation(rule) in after
  {
    AfterLast(c, before, ClearInvalidations, after);
    RulesWithoutClear(ApplyToDocument(Replay(c, before), ClearInvalidations), after, rule);
  }

  // All of it holds of a replica that catches up, too.
  lemma ReplicaHoldsTheSame(c: Contents, ops: seq<Operation>)
    ensures CatchUp(c, ops).entries == Replay(c, ops).entries && CatchUp(c, ops).admissions == Replay(c, ops).admissions
    ensures forall rule :: rule in CatchUp(c, ops).rules <==> rule in Replay(c, ops).rules
  {
    CatchUpAgrees(c, c, ops);
  }
}
