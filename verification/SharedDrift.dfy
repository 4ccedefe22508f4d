/**
 How a replica can drift from the shared store although every number it checks looks right, and
 exactly when it cannot: after a rebuild of the store under its old epoch, and after a publish.
 */
module SharedDrift {
  import opened CacheTypes
  import opened SharedIndex
  import opened SharedSync

  // ----- One undisturbed sync, from the store and the replica alone -----

  function Synced(d: Document, p: Position, contents: Contents): Contents {
    match AfterCheck(d, p)
    case MustReload => d.contents
    case Checked(_) =>
      (match AfterDelta(d, p)
       case HaveDelta(_, ops) => CatchUp(contents, ops)
       case _ => d.contents)
    case _ => contents
  }

  function WholeSync(s: State, capacity: nat): State
    requires s.document.epoch in s.histories
  {
    var checked := Step(Step(Step(s, Enter, capacity), TakePosition, capacity), CheckState(false), capacity);
    if checked.holder.Free? then checked
    else if checked.holder.MustReload? then Commit(Step(checked, Load(false), capacity), capacity)
    else Commit(Fetch(checked, true, capacity), capacity)
  }

  lemma CheckedSync(s: State, capacity: nat)
    requires s.document.epoch in s.histories && s.holder.Free?
    ensures Step(Step(Step(s, Enter, capacity), TakePosition, capacity), CheckState(false), capacity)
         == s.(holder := AfterCheck(s.document, s.replica.position))
  {
  }

  lemma CommitKeepsContents(s: State, capacity: nat)
    requires s.document.epoch in s.histories && (s.holder.HaveDelta? || s.holder.Loaded?)
    ensures var done := Commit(s, capacity);
            && done.document == s.document && done.holder.Free? && done.replica.position == s.holder.target
            && done.replica.contents == (if s.holder.HaveDelta? then CatchUp(s.replica.contents, s.holder.ops)
                                         else s.holder.contents)
  {
    StoresReachTarget(Step(s, UpdateIndex, capacity), capacity);
  }

  lemma WholeSyncIsSynced(s: State, capacity: nat)
    requires s.document.epoch in s.histories && s.holder.Free?
    ensures var done := WholeSync(s, capacity);
            && done.document == s.document && done.holder.Free?
            && done.replica.contents == Synced(s.document, s.replica.position, s.replica.contents)
            && (AfterCheck(s.document, s.replica.position).Free? || IsCurrent(done))
  {
    CheckedSync(s, capacity);
    var checked := s.(holder := AfterCheck(s.document, s.replica.position));
    if checked.holder.MustReload? {
      CommitKeepsContents(Step(checked, Load(false), capacity), capacity);
    } else if checked.holder.Checked? {
      CommitKeepsContents(Fetch(checked, true, capacity), capacity);
    }
  }

  // ----- Publishing -----

  lemma {:induction false} AppendAllContents(d: Document, ops: seq<Operation>)
    ensures AppendAll(d, ops).contents == Replay(d.contents, ops)
    ensures AppendAll(d, ops).lastSeq == d.lastSeq + |ops|
    ensures |AppendAll(d, ops).changes| == |d.changes| + |ops|
  {
    if ops != [] {
      AppendAllContents(d, ops[..|ops| - 1]);
    }
  }

  lemma PublishedDocument(d: Document, ops: seq<Operation>, capacity: nat)
    requires ops != []
    ensures var d' := ApplyOperations(d, ops, capacity);
            && d'.generation == d.generation + 1 && d'.epoch == d.epoch && d'.lastSeq == d.lastSeq + |ops|
            && d'.contents == Replay(d.contents, ops)
            && |d'.changes| == (if |d.changes| + |ops| <= capacity then |d.changes| + |ops| else capacity)
  {
    AppendAllContents(d.(generation := d.generation + 1), ops);
  }

  lemma OneStep(c: Contents, op: Operation)
    ensures Replay(c, [op]) == ApplyToDocument(c, op) && CatchUp(c, [op]) == ApplyToReplica(c, op)
  {
    assert [op][..|[op]| - 1] == [];
    assert Replay(c, []) == c && CatchUp(c, []) == c;
  }

  lemma OnePublish(d: Document, op: Operation, capacity: nat)
    ensures var d' := ApplyOperations(d, [op], capacity);
            && d'.generation == d.generation + 1 && d'.epoch == d.epoch && d'.lastSeq == d.lastSeq + 1
            && d'.contents == ApplyToDocument(d.contents, op)
  {
    PublishedDocument(d, [op], capacity);
    OneStep(d.contents, op);
  }

  const ENTRY := Entry(Response, "", "", 0, [], 0, 0, false, 0)

  // An operation that leaves a disagreement as it is.
  function Neutral(a: Contents, b: Contents): Operation {
    if a.entries != b.entries then RemoveAdmissionCount("k") else RemoveEntry("k")
  }

  lemma NeutralKeepsDisagreement(a: Contents, b: Contents)
    requires !Agree(a, b)
    ensures !Agree(ApplyToReplica(a, Neutral(a, b)), ApplyToDocument(b, Neutral(a, b)))
  {
  }

  /**
   Whatever is published, publisher and store end in agreement exactly when they agreed before.
   The publisher's position, which the code does not look at either, plays no part.
   */
  lemma PublishAgreesIff(contents: Contents, d: Document, capacity: nat)
    ensures (forall ops | ops != [] :: Agree(CatchUp(contents, ops), ApplyOperations(d, ops, capacity).contents))
       <==> Agree(contents, d.contents)
  {
    if Agree(contents, d.contents) {
      forall ops | ops != [] ensures Agree(CatchUp(contents, ops), ApplyOperations(d, ops, capacity).contents) {
        PublishedDocument(d, ops, capacity);
        CatchUpAgrees(contents, d.contents, ops);
      }
    } else {
      var op := Neutral(contents, d.contents);
      NeutralKeepsDisagreement(contents, d.contents);
      OneStep(contents, op);
      OnePublish(d, op, capacity);
      assert [op] != [];
    }
  }

  function Published(d: Document, batches: seq<seq<Operation>>, capacity: nat): Document {
    if batches == [] then d
    else ApplyOperations(Published(d, batches[..|batches| - 1], capacity), batches[|batches| - 1], capacity)
  }

  lemma {:induction false} PublishedDescribes(d: Document, base: Contents, batches: seq<seq<Operation>>, capacity: nat)
    requires Describes(d, base, [])
    ensures var d' := Published(d, batches, capacity);
            && Describes(d', base, Flatten(batches)) && d'.epoch == d.epoch && d'.generation >= d.generation
            && (d'.generation == d.generation ==> Flatten(batches) == [])
            && (capacity == 0 ==> d'.changes == [])
  {
    if batches != [] {
      var before, ops := batches[..|batches| - 1], batches[|batches| - 1];
      PublishedDescribes(d, base, before, capacity);
      ApplyOperationsDescribes(Published(d, before, capacity), base, Flatten(before), ops, capacity);
      if ops != [] {
        PublishedDocument(Published(d, before, capacity), ops, capacity);
      }
    }
  }

  lemma Lacks(a: Contents, b: Contents, key: Key)
    requires (key in a.entries) != (key in b.entries)
    ensures !Agree(a, b)
  {
  }

  // ----- After a rebuild -----

  function RebuiltDocument(epoch: nat, generation: nat, base: Contents): Document {
    Document(generation, epoch, 0, base, [])
  }

  // Whatever is published from now on, the next sync brings the replica into agreement.
  ghost predicate SyncsRight(d: Document, p: Position, contents: Contents, capacity: nat) {
    forall batches :: SyncsRightAfter(d, p, contents, batches, capacity)
  }

  ghost predicate SyncsRightAfter(
      d: Document, p: Position, contents: Contents, batches: seq<seq<Operation>>, capacity: nat)
  {
    Agree(Synced(Published(d, batches, capacity), p, contents), Published(d, batches, capacity).contents)
  }

  // The replica is of another epoch; or not beyond the rebuilt store, without operations of its
  // own, and in agreement with it. Without a ring of changes every later sync is a reload.
  ghost predicate Harmless(d: Document, p: Position, contents: Contents, capacity: nat) {
    || p.epoch != d.epoch
    || (&& p.generation <= d.generation && (capacity == 0 || p.lastSeq == 0)
        && (Agree(contents, d.contents) || (capacity == 0 && p.generation < d.generation)))
  }

  lemma HarmlessSyncsRight(
      epoch: nat, generation: nat, base: Contents, p: Position, contents: Contents, capacity: nat,
      batches: seq<seq<Operation>>)
    requires Harmless(RebuiltDocument(epoch, generation, base), p, contents, capacity)
    ensures SyncsRightAfter(RebuiltDocument(epoch, generation, base), p, contents, batches, capacity)
  {
    var d := RebuiltDocument(epoch, generation, base);
    var d', log := Published(d, batches, capacity), Flatten(batches);
    assert Replay(base, []) == base;
    PublishedDescribes(d, base, batches, capacity);
    if AfterCheck(d', p).Checked? && AfterDelta(d', p).HaveDelta? {
      FirstDeltaIsLog(d', base, log);
      SyncedByDelta(d', p, contents, log);
      CatchUpAgrees(contents, base, log);
    }
  }

  lemma SyncedByDelta(d: Document, p: Position, contents: Contents, ops: seq<Operation>)
    requires p.epoch == d.epoch && d.generation > p.generation && d.lastSeq >= p.lastSeq
    requires OperationsSince(d, p.lastSeq) == ops && ops != []
    ensures Synced(d, p, contents) == CatchUp(contents, ops)
  {
  }

  lemma FirstDeltaIsLog(d: Document, base: Contents, log: seq<Operation>)
    requires Describes(d, base, log) && OperationsSince(d, 0) != []
    ensures OperationsSince(d, 0) == log
  {
    DeltaIsExactSuffix(d, base, log, 0);
    assert log[0..] == log;
  }

  // Makes the presence of one key differ from what the replica has.
  function Flip(contents: Contents): Operation {
    if "k" in contents.entries then RemoveEntry("k") else UpsertEntry("k", ENTRY)
  }

  lemma FlipDiffers(contents: Contents, c: Contents)
    ensures "k" in ApplyToDocument(c, Flip(contents)).entries <==> "k" !in contents.entries
  {
  }

  function Padding(n: nat): (ops: seq<Operation>)
    ensures |ops| == n && forall i | 0 <= i < n :: ops[i] == RemoveAdmissionCount("k")
  {
    seq(n, _ => RemoveAdmissionCount("k"))
  }

  lemma {:induction false} PaddingKeepsEntries(c: Contents, n: nat)
    ensures Replay(c, Padding(n)).entries == c.entries
  {
    if n > 0 {
      PaddingKeepsEntries(c, n - 1);
      assert Padding(n)[..n - 1] == Padding(n - 1);
    }
  }

  // The replica believes it is ahead, and never looks again.
  lemma AheadGoesWrong(d: Document, p: Position, contents: Contents, capacity: nat)
    requires p.epoch == d.epoch && p.generation > d.generation
    ensures !SyncsRightAfter(d, p, contents, [[Flip(contents)]], capacity)
  {
    OneBatch(d, [Flip(contents)], capacity);
    OnePublish(d, Flip(contents), capacity);
    FlipDiffers(contents, d.contents);
  }

  lemma OneBatch(d: Document, ops: seq<Operation>, capacity: nat)
    ensures Published(d, [ops], capacity) == ApplyOperations(d, ops, capacity)
  {
    assert [ops][..|[ops]| - 1] == [];
    assert Published(d, [], capacity) == d;
  }

  // A replica with as many operations as all but the last published one gets just that one.
  lemma SyncGetsLast(
      d: Document, ops: seq<Operation>, p: Position, contents: Contents, capacity: nat)
    requires Describes(d, d.contents, []) && capacity > 0
    requires p.epoch == d.epoch && p.generation <= d.generation && |ops| == p.lastSeq + 1
    ensures Synced(Published(d, [ops], capacity), p, contents) == ApplyToReplica(contents, ops[p.lastSeq])
    ensures Published(d, [ops], capacity).contents == Replay(d.contents, ops)
  {
    var last := ops[p.lastSeq];
    OneBatch(d, ops, capacity);
    PublishedDocument(d, ops, capacity);
    LastOfRing(d, ops, p.lastSeq, capacity);
    SyncedByDelta(ApplyOperations(d, ops, capacity), p, contents, [last]);
    OneStep(contents, last);
  }

  lemma LastOfRing(d: Document, ops: seq<Operation>, n: nat, capacity: nat)
    requires Describes(d, d.contents, []) && capacity > 0 && |ops| == n + 1
    ensures OperationsSince(ApplyOperations(d, ops, capacity), n) == [ops[n]]
  {
    PublishedDocument(d, ops, capacity);
    assert [] + ops == ops;
    ApplyOperationsDescribes(d, d.contents, [], ops, capacity);
    DeltaIsExactSuffix(ApplyOperations(d, ops, capacity), d.contents, ops, n);
    assert ops[n..] == [ops[n]];
  }

  lemma RebuiltDescribes(epoch: nat, generation: nat, base: Contents)
    ensures Describes(RebuiltDocument(epoch, generation, base), base, [])
  {
    assert Replay(base, []) == base;
  }

  lemma FlipAndPadding(contents: Contents, base: Contents, n: nat)
    ensures "k" in Replay(base, [Flip(contents)] + Padding(n)).entries <==> "k" !in contents.entries
  {
    ReplayComposes(base, [Flip(contents)], Padding(n));
    OneStep(base, Flip(contents));
    PaddingKeepsEntries(Replay(base, [Flip(contents)]), n);
    FlipDiffers(contents, base);
  }

  // The replica asks for what follows its own operations and misses as many of the new ones.
  lemma SkippingGoesWrong(
      epoch: nat, generation: nat, base: Contents, p: Position, contents: Contents, capacity: nat)
    requires p.epoch == epoch && p.generation <= generation && p.lastSeq > 0 && capacity > 0
    ensures !SyncsRightAfter(RebuiltDocument(epoch, generation, base), p, contents,
                             [[Flip(contents)] + Padding(p.lastSeq)], capacity)
  {
    var d, ops := RebuiltDocument(epoch, generation, base), [Flip(contents)] + Padding(p.lastSeq);
    RebuiltDescribes(epoch, generation, base);
    SyncGetsLast(d, ops, p, contents, capacity);
    assert ops[p.lastSeq] == Padding(p.lastSeq)[p.lastSeq - 1] == RemoveAdmissionCount("k");
    FlipAndPadding(contents, base, p.lastSeq);
    Lacks(ApplyToReplica(contents, RemoveAdmissionCount("k")), Replay(base, ops), "k");
  }

  // The replica gets the new operations but never the rebuilt contents.
  lemma MissingBaseGoesWrong(
      epoch: nat, generation: nat, base: Contents, p: Position, contents: Contents, capacity: nat)
    requires p.epoch == epoch && p.generation < generation && p.lastSeq == 0 && capacity > 0
    requires !Agree(contents, base)
    ensures !SyncsRightAfter(RebuiltDocument(epoch, generation, base), p, contents,
                             [[Neutral(contents, base)]], capacity)
  {
    var d, op := RebuiltDocument(epoch, generation, base), Neutral(contents, base);
    RebuiltDescribes(epoch, generation, base);
    SyncGetsLast(d, [op], p, contents, capacity);
    OneStep(base, op);
    NeutralKeepsDisagreement(contents, base);
  }

  /**
   A rebuild under the old epoch leaves a replica able to follow, whatever is published next,
   exactly when it is harmless. With a ring of changes that is what the run invariant asks for.
   */
  lemma RebuildHarmlessIff(
      epoch: nat, generation: nat, base: Contents, p: Position, contents: Contents, capacity: nat)
    ensures var d := RebuiltDocument(epoch, generation, base);
            && (SyncsRight(d, p, contents, capacity) <==> Harmless(d, p, contents, capacity))
            && (capacity > 0 ==>
                  (Harmless(d, p, contents, capacity) <==> Survives(p, contents, epoch, generation, base)))
  {
    var d := RebuiltDocument(epoch, generation, base);
    if Harmless(d, p, contents, capacity) {
      forall batches ensures SyncsRightAfter(d, p, contents, batches, capacity) {
        HarmlessSyncsRight(epoch, generation, base, p, contents, capacity, batches);
      }
    } else if p.generation > generation {
      AheadGoesWrong(d, p, contents, capacity);
    } else if capacity > 0 && p.lastSeq > 0 {
      SkippingGoesWrong(epoch, generation, base, p, contents, capacity);
    } else if p.generation == generation {
      assert !SyncsRightAfter(d, p, contents, [], capacity);
    } else {
      MissingBaseGoesWrong(epoch, generation, base, p, contents, capacity);
    }
  }

  // ----- Runs in which a replica drifts -----

  const BASE := Contents(map["k" := ENTRY], map[], [])

  const OTHER := UpsertEntry("other", ENTRY)

  // A replica that holds a new or rebuilt store.
  function Start(generation: nat, base: Contents): State {
    State(map[1 := History(base, generation, [])], Document(generation, 1, 0, base, []),
          Replica(Position(generation, 1, 0), base, Record(1, 0, [])), Free)
  }

  // Everything looks right, and the contents are not.
  ghost predicate Drifted(s: State) {
    IsCurrent(s) && s.holder.Free? && !Agree(s.replica.contents, s.document.contents)
  }

  lemma OtherKeepsKey(c: Contents)
    ensures "k" in ApplyToDocument(c, OTHER).entries <==> "k" in c.entries
    ensures "k" in ApplyToReplica(c, OTHER).entries <==> "k" in c.entries
  {
    assert "k" != "other";
  }

  lemma PublishesOne(s: State, op: Operation, capacity: nat)
    requires s.document.epoch in s.histories && s.holder.Free?
    ensures var s' := Step(s, LocalPublish([op], false), capacity);
            && s'.holder.Free? && IsCurrent(s') && s'.document.epoch == s.document.epoch
            && s'.document.generation == s.document.generation + 1 && s'.document.lastSeq == s.document.lastSeq + 1
            && s'.replica.contents == ApplyToReplica(s.replica.contents, op)
            && s'.document.contents == ApplyToDocument(s.document.contents, op)
  {
    OnePublish(s.document, op, capacity);
    OneStep(s.replica.contents, op);
  }

  // A process that starts on an empty segment rebuilds it and publishes; a replica of the empty
  // segment gets the operation and not the contents.
  lemma RebuildOverEmptySegment(capacity: nat)
    requires capacity > 0
    ensures Inv(Start(0, EMPTY))
    ensures var s := Step(Step(Start(0, EMPTY), Rebuild(1, BASE), capacity), RemotePublish([OTHER]), capacity);
            Drifted(WholeSync(s, capacity))
  {
    StartIsInStep(1, 0, EMPTY);
    var s := Step(Step(Start(0, EMPTY), Rebuild(1, BASE), capacity), RemotePublish([OTHER]), capacity);
    RebuiltAndPublished(Start(0, EMPTY), capacity);
    EmptyReplicaMissesBase(capacity);
    WholeSyncIsSynced(s, capacity);
  }

  // What another process's rebuild and publish do to the store.
  lemma RebuiltAndPublished(s: State, capacity: nat)
    requires s.document.epoch in s.histories
    ensures var s' := Step(Step(s, Rebuild(1, BASE), capacity), RemotePublish([OTHER]), capacity);
            && s'.document == Published(RebuiltDocument(s.document.epoch, 1, BASE), [[OTHER]], capacity)
            && s'.replica == s.replica && s'.holder == s.holder
            && PositionOf(s'.document) == Position(2, s.document.epoch, 1)
            && "k" in s'.document.contents.entries
  {
    var d := RebuiltDocument(s.document.epoch, 1, BASE);
    OneBatch(d, [OTHER], capacity);
    OnePublish(d, OTHER, capacity);
    OtherKeepsKey(BASE);
  }

  lemma EmptyReplicaMissesBase(capacity: nat)
    requires capacity > 0
    ensures var d := Published(RebuiltDocument(1, 1, BASE), [[OTHER]], capacity);
            && !AfterCheck(d, Position(0, 1, 0)).Free?
            && !Agree(Synced(d, Position(0, 1, 0), EMPTY), d.contents)
  {
    var d := RebuiltDocument(1, 1, BASE);
    RebuiltDescribes(1, 1, BASE);
    OneBatch(d, [OTHER], capacity);
    OnePublish(d, OTHER, capacity);
    SyncGetsLast(d, [OTHER], Position(0, 1, 0), EMPTY, capacity);
    OtherKeepsKey(EMPTY);
    OtherKeepsKey(BASE);
    Lacks(ApplyToReplica(EMPTY, OTHER), ApplyToDocument(BASE, OTHER), "k");
  }

  // Two processes start together: the second rebuild and its publish end on the very position
  // that the first process has, which then sees no reason to sync.
  lemma RebuildByTwoProcesses(capacity: nat)
    ensures var mine := Step(Start(1, EMPTY), LocalPublish([OTHER], false), capacity);
            var s := Step(Step(mine, Rebuild(1, BASE), capacity), RemotePublish([OTHER]), capacity);
            Inv(mine) && Drifted(s) && WholeSync(s, capacity) == s
  {
    var mine := Step(Start(1, EMPTY), LocalPublish([OTHER], false), capacity);
    FirstProcess(capacity);
    SecondProcess(mine, capacity);
  }

  lemma FirstProcess(capacity: nat)
    ensures var mine := Step(Start(1, EMPTY), LocalPublish([OTHER], false), capacity);
            && Inv(mine) && mine.holder.Free? && mine.document.epoch == 1
            && mine.replica.position == Position(2, 1, 1) && "k" !in mine.replica.contents.entries
  {
    StartIsInStep(1, 1, EMPTY);
    StepKeepsInvIff(Start(1, EMPTY), LocalPublish([OTHER], false), capacity);
    PublishesOne(Start(1, EMPTY), OTHER, capacity);
    OtherKeepsKey(EMPTY);
  }

  lemma SecondProcess(mine: State, capacity: nat)
    requires mine.document.epoch in mine.histories && mine.holder.Free? && mine.document.epoch == 1
    requires mine.replica.position == Position(2, 1, 1) && "k" !in mine.replica.contents.entries
    ensures var s := Step(Step(mine, Rebuild(1, BASE), capacity), RemotePublish([OTHER]), capacity);
            Drifted(s) && WholeSync(s, capacity) == s
  {
    var s := Step(Step(mine, Rebuild(1, BASE), capacity), RemotePublish([OTHER]), capacity);
    RebuiltAndPublished(mine, capacity);
    Lacks(s.replica.contents, s.document.contents, "k");
    CheckedSync(s, capacity);
  }

  lemma PublishDrifts(s: State, capacity: nat)
    requires s.document.epoch in s.histories && s.holder.Free?
    requires ("k" in s.replica.contents.entries) != ("k" in s.document.contents.entries)
    ensures Drifted(Step(s, LocalPublish([OTHER], false), capacity))
  {
    PublishesOne(s, OTHER, capacity);
    OtherKeepsKey(s.replica.contents);
    OtherKeepsKey(s.document.contents);
    Lacks(ApplyToReplica(s.replica.contents, OTHER), ApplyToDocument(s.document.contents, OTHER), "k");
  }

  // Publishing while behind jumps over what another process has published.
  lemma PublishWhileBehind(capacity: nat)
    ensures var s := Step(Start(1, EMPTY), RemotePublish([UpsertEntry("k", ENTRY)]), capacity);
            Inv(s) && Drifted(Step(s, LocalPublish([OTHER], false), capacity))
  {
    BehindIsInStep(capacity);
    PublishDrifts(Step(Start(1, EMPTY), RemotePublish([UpsertEntry("k", ENTRY)]), capacity), capacity);
  }

  lemma BehindIsInStep(capacity: nat)
    ensures var s := Step(Start(1, EMPTY), RemotePublish([UpsertEntry("k", ENTRY)]), capacity);
            Inv(s) && s.holder.Free?
            && "k" !in s.replica.contents.entries && "k" in s.document.contents.entries
  {
    StartIsInStep(1, 1, EMPTY);
    StepKeepsInvIff(Start(1, EMPTY), RemotePublish([UpsertEntry("k", ENTRY)]), capacity);
    RemotePublishesOne(Start(1, EMPTY), UpsertEntry("k", ENTRY), capacity);
  }

  lemma RemotePublishesOne(s: State, op: Operation, capacity: nat)
    requires s.document.epoch in s.histories
    ensures var s' := Step(s, RemotePublish([op]), capacity);
            && s'.replica == s.replica && s'.holder == s.holder
            && s'.document.contents == ApplyToDocument(s.document.contents, op)
  {
    OnePublish(s.document, op, capacity);
  }

  // A replica of an old segment that publishes takes the new segment's position.
  lemma PublishFromOldEpoch(capacity: nat)
    ensures var s := Step(Start(1, BASE), NewSegment(2), capacity);
            Inv(s) && Drifted(Step(s, LocalPublish([OTHER], false), capacity))
  {
    StartIsInStep(1, 1, BASE);
    StepKeepsInvIff(Start(1, BASE), NewSegment(2), capacity);
    PublishDrifts(Step(Start(1, BASE), NewSegment(2), capacity), capacity);
  }

  // A publish that fails, for want of room, leaves the local index changed.
  lemma FailedPublish(capacity: nat)
    ensures Inv(Start(1, EMPTY))
    ensures Drifted(Step(Start(1, EMPTY), LocalPublish([UpsertEntry("k", ENTRY)], true), capacity))
  {
    StartIsInStep(1, 1, EMPTY);
    OneStep(EMPTY, UpsertEntry("k", ENTRY));
    Lacks(ApplyToReplica(EMPTY, UpsertEntry("k", ENTRY)), EMPTY, "k");
  }
}
