/**
 The shared index document and the operations that replicas exchange through it:
 a snapshot of the contents plus a bounded ring of the latest changes.
 */
module SharedIndex {
  import opened CacheTypes
  import Invalidation

  type Rule = Invalidation.Rule

  datatype Operation =
    | UpsertEntry(key: Key, entry: Entry)
    | RemoveEntry(key: Key)
    | TouchEntry(key: Key, lastAccessMs: nat)
    | SetAdmissionCount(key: Key, uses: nat)
    | RemoveAdmissionCount(key: Key)
    | AddInvalidation(rule: Rule)
    | ClearInvalidations

  datatype Contents = Contents(entries: map<Key, Entry>, admissions: map<Key, nat>, rules: seq<Rule>)

  // The parts on which the document and a replica do the same thing.
  function ApplyCommon(c: Contents, op: Operation): Contents {
    match op
    case UpsertEntry(key, entry) => c.(entries := c.entries[key := entry])
    case RemoveEntry(key) => c.(entries := c.entries - {key})
    case TouchEntry(key, lastAccessMs) =>
      if key in c.entries && c.entries[key].lastAccessMs < lastAccessMs
      then c.(entries := c.entries[key := c.entries[key].(lastAccessMs := lastAccessMs)])
      else c
    case SetAdmissionCount(key, uses) => c.(admissions := c.admissions[key := uses])
    case RemoveAdmissionCount(key) => c.(admissions := c.admissions - {key})
    case ClearInvalidations => c.(rules := [])
    case AddInvalidation(rule) => c
  }

  function ApplyToDocument(c: Contents, op: Operation): Contents {
    if op.AddInvalidation? then c.(rules := c.rules + [op.rule]) else ApplyCommon(c, op)
  }

  // A replica skips a rule it already has.
  function ApplyToReplica(c: Contents, op: Operation): Contents {
    if op.AddInvalidation? then if op.rule in c.rules then c else c.(rules := c.rules + [op.rule])
    else ApplyCommon(c, op)
  }

  function Replay(c: Contents, ops: seq<Operation>): Contents {
    if ops == [] then c else ApplyToDocument(Replay(c, ops[..|ops| - 1]), ops[|ops| - 1])
  }

  function CatchUp(c: Contents, ops: seq<Operation>): Contents {
    if ops == [] then c else ApplyToReplica(CatchUp(c, ops[..|ops| - 1]), ops[|ops| - 1])
  }

  // ----- Agreement: same entries and counts, same rules up to repetition -----

  ghost predicate Agree(a: Contents, b: Contents) {
    && a.entries == b.entries && a.admissions == b.admissions
    && (forall rule :: rule in a.rules <==> rule in b.rules)
  }

  // Contents that agree invalidate the same entries.
  lemma AgreeingRulesInvalidateAlike(a: Contents, b: Contents, key: Key, entry: Entry)
    requires Agree(a, b)
    ensures Invalidation.LogicallyInvalid(a.rules, key, entry) == Invalidation.LogicallyInvalid(b.rules, key, entry)
  {
    if i :| 0 <= i < |a.rules| && Invalidation.RuleMatches(a.rules[i], key, entry) {
      assert a.rules[i] in a.rules;
    }
    if i :| 0 <= i < |b.rules| && Invalidation.RuleMatches(b.rules[i], key, entry) {
      assert b.rules[i] in b.rules;
    }
  }

  // The two ways of applying an operation give the same list of rules
  // exactly when it does not repeat a rule.
  lemma SameResultIff(c: Contents, op: Operation)
    ensures ApplyToReplica(c, op) == ApplyToDocument(c, op) <==> !(op.AddInvalidation? && op.rule in c.rules)
  {
    if op.AddInvalidation? {
      assert |c.rules + [op.rule]| == |c.rules| + 1;
    }
  }

  // Such a rule: the document lists it twice, the replica once.
  lemma RepeatedRuleDiffers(rule: Rule)
    ensures var c, op := Contents(map[], map[], [rule]), AddInvalidation(rule);
            ApplyToDocument(c, op).rules == [rule, rule] && ApplyToReplica(c, op).rules == [rule]
  {
  }

  lemma ApplyAgrees(a: Contents, b: Contents, op: Operation)
    requires Agree(a, b)
    ensures Agree(ApplyToReplica(a, op), ApplyToDocument(b, op))
  {
  }

  lemma {:induction false} CatchUpAgrees(a: Contents, b: Contents, ops: seq<Operation>)
    requires Agree(a, b)
    ensures Agree(CatchUp(a, ops), Replay(b, ops))
  {
    if ops != [] {
      var shorter := ops[..|ops| - 1];
      CatchUpAgrees(a, b, shorter);
      ApplyAgrees(CatchUp(a, shorter), Replay(b, shorter), ops[|ops| - 1]);
    }
  }

  lemma {:induction false} ReplayComposes(c: Contents, first: seq<Operation>, second: seq<Operation>)
    ensures Replay(c, first + second) == Replay(Replay(c, first), second)
    decreases |second|
  {
    if second == [] {
      assert first + second == first;
    } else {
      var shorter := second[..|second| - 1];
      ReplayComposes(c, first, shorter);
      assert (first + second)[..|first + second| - 1] == first + shorter;
    }
  }

  // ----- The document -----

  datatype Change = Change(seqNo: nat, op: Operation)

  datatype Document = Document(generation: nat, epoch: nat, lastSeq: nat, contents: Contents, changes: seq<Change>)

  function Trim(changes: seq<Change>, capacity: nat): seq<Change> {
    if |changes| > capacity then changes[|changes| - capacity..] else changes
  }

  function AppendAll(d: Document, ops: seq<Operation>): (r: Document)
    ensures r.epoch == d.epoch && r.generation == d.generation
  {
    if ops == [] then d
    else
      var before := AppendAll(d, ops[..|ops| - 1]);
      var op := ops[|ops| - 1];
      before.(contents := ApplyToDocument(before.contents, op),
              lastSeq := before.lastSeq + 1,
              changes := before.changes + [Change(before.lastSeq + 1, op)])
  }

  function ApplyOperations(d: Document, ops: seq<Operation>, capacity: nat): Document {
    if ops == [] then d
    else
      var appended := AppendAll(d.(generation := d.generation + 1), ops);
      appended.(changes := Trim(appended.changes, capacity))
  }

  function Later(changes: seq<Change>, after: nat): seq<Operation> {
    if changes == [] then []
    else (if changes[0].seqNo > after then [changes[0].op] else []) + Later(changes[1..], after)
  }

  // An empty answer stands for a gap: the caller then reloads everything.
  function OperationsSince(d: Document, after: nat): seq<Operation> {
    if d.changes == [] || after + 1 < d.changes[0].seqNo then [] else Later(d.changes, after)
  }

  // The document is what `log` makes of `base`, and its ring holds the end of that log.
  ghost predicate Describes(d: Document, base: Contents, log: seq<Operation>) {
    && d.contents == Replay(base, log)
    && d.lastSeq == |log| >= |d.changes|
    && forall i | 0 <= i < |d.changes| ::
         d.changes[i] == Change(|log| - |d.changes| + i + 1, log[|log| - |d.changes| + i])
  }

  lemma {:induction false} AppendAllDescribes(d: Document, base: Contents, log: seq<Operation>, ops: seq<Operation>)
    requires Describes(d, base, log)
    ensures Describes(AppendAll(d, ops), base, log + ops)
    decreases |ops|
  {
    if ops == [] {
      assert log + ops == log;
    } else {
      var shorter := ops[..|ops| - 1];
      AppendAllDescribes(d, base, log, shorter);
      assert (log + ops)[..|log + ops| - 1] == log + shorter;
    }
  }

  lemma ApplyOperationsDescribes(d: Document, base: Contents, log: seq<Operation>, ops: seq<Operation>, capacity: nat)
    requires Describes(d, base, log)
    ensures Describes(ApplyOperations(d, ops, capacity), base, log + ops)
  {
    if ops == [] {
      assert log + ops == log;
    } else {
      AppendAllDescribes(d.(generation := d.generation + 1), base, log, ops);
    }
  }

  lemma {:induction false} LaterIsSuffix(changes: seq<Change>, log: seq<Operation>, after: nat)
    requires |changes| <= |log| && after <= |log|
    requires forall i | 0 <= i < |changes| ::
               changes[i] == Change(|log| - |changes| + i + 1, log[|log| - |changes| + i])
    ensures Later(changes, after) == if after < |log| - |changes| then log[|log| - |changes|..] else log[after..]
  {
    if changes != [] {
      LaterIsSuffix(changes[1..], log, after);
      assert log[|log| - |changes|..] == [log[|log| - |changes|]] + log[|log| - |changes| + 1..];
    }
  }

  // A delta is either empty or every operation after the cursor, in order.
  lemma DeltaIsExactSuffix(d: Document, base: Contents, log: seq<Operation>, after: nat)
    requires Describes(d, base, log) && after <= |log|
    ensures OperationsSince(d, after) == [] || OperationsSince(d, after) == log[after..]
    ensures |log| - |d.changes| <= after ==> OperationsSince(d, after) == log[after..]
  {
    LaterIsSuffix(d.changes, log, after);
  }
}
